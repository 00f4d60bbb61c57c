/** Writing a sync status, truncated further and further while the API server
    rejects it as too large. The source, rendering and sync status are written by
    three functions of this one shape (pkg/parse/repo_sync_client.go). */
module StatusRetry {

  /** What happens in one attempt: reading the sync object fails; the status is
      up to date; or the update is made and succeeds, is too large, or fails. */
  datatype Response = GetFailed | UpToDate | Updated | TooLarge | UpdateFailed

  datatype Result = Ok | ServerError | DenominatorError

  const TWO_TO_63: int := 0x8000_0000_0000_0000
  const TWO_TO_64: int := 0x1_0000_0000_0000_0000

  /** Go's int on 64-bit platforms. */
  type Int64 = x: int | -TWO_TO_63 <= x < TWO_TO_63

  /** Two's complement doubling. */
  function Double(x: Int64): Int64 {
    var y := 2 * x;
    if y >= TWO_TO_63 then y - TWO_TO_64 else if y < -TWO_TO_63 then y + TWO_TO_64 else y
  }

  function Pow2(n: nat): nat {
    if n == 0 then 1 else 2 * Pow2(n - 1)
  }

  predicate Positive(x: int) {
    0 < x < TWO_TO_63
  }

  /** x doubled n times, without wrapping. */
  function Doubled(x: int, n: nat): int
    decreases n
  {
    if n == 0 then x else Doubled(2 * x, n - 1)
  }

  lemma {:induction false} DoubledIsProduct(x: int, n: nat)
    ensures Doubled(x, n) == x * Pow2(n)
    decreases n
  {
    if n > 0 {
      DoubledIsProduct(2 * x, n - 1);
      assert (2 * x) * Pow2(n - 1) == x * (2 * Pow2(n - 1));
    }
  }

  /** The recursion, for every start value and whatever the server answers in the
      attempts from the given one on. It ends because doubling a positive number
      makes it larger or negative. The i-th update divides by denominator * 2^i.
      The first answer that is not "too large" decides the result, and the
      denominator error means that all answers were too large for as long as the
      denominators are positive 64-bit integers. */
  method SetStatusWithRetries(server: nat -> Response, attempt: nat, denominator: Int64)
    returns (result: Result, updates: seq<int>, ghost rejected: nat)
    ensures forall j :: attempt <= j < attempt + rejected ==> server(j) == TooLarge
    ensures if result.DenominatorError? then !Positive(Doubled(denominator, rejected))
            else Positive(Doubled(denominator, rejected)) && server(attempt + rejected) != TooLarge
                 && (result == Ok <==> server(attempt + rejected) in {UpToDate, Updated})
    ensures |updates| == rejected + if !result.DenominatorError?
                                       && server(attempt + rejected) in {Updated, UpdateFailed} then 1 else 0
    ensures forall i :: 0 <= i < |updates| ==> updates[i] == Doubled(denominator, i) && Positive(updates[i])
    ensures denominator <= 0 ==> result.DenominatorError? && updates == []
    decreases if denominator <= 0 then 0 else TWO_TO_63 - denominator
  {
    rejected := 0;
    if denominator <= 0 {
      return DenominatorError, [], 0;
    }
    match server(attempt) {
      case GetFailed => return ServerError, [], 0;
      case UpToDate => return Ok, [], 0;
      case Updated => return Ok, [denominator], 0;
      case UpdateFailed => return ServerError, [denominator], 0;
      case TooLarge =>
        var rest;
        ghost var n;
        result, rest, n := SetStatusWithRetries(server, attempt + 1, Double(denominator));
        updates, rejected := [denominator] + rest, n + 1;
    }
  }

  lemma {:induction false} Pow2Grows(m: nat, n: nat)
    requires m <= n
    ensures Pow2(m) <= Pow2(n)
  {
    if m < n {
      Pow2Grows(m, n - 1);
    }
  }

  lemma Pow2Step(n: nat)
    ensures Pow2(n + 8) == 256 * Pow2(n)
  {
    assert Pow2(n + 4) == 16 * Pow2(n) by {
      assert Pow2(n + 2) == 2 * Pow2(n + 1) == 4 * Pow2(n);
      assert Pow2(n + 4) == 2 * Pow2(n + 3) == 4 * Pow2(n + 2);
    }
    assert Pow2(n + 6) == 2 * Pow2(n + 5) == 4 * Pow2(n + 4);
    assert Pow2(n + 8) == 2 * Pow2(n + 7) == 4 * Pow2(n + 6);
  }

  lemma Pow2Of62()
    ensures Pow2(62) == 0x4000_0000_0000_0000
  {
    assert Pow2(2) == 4 && Pow2(4) == 16 && Pow2(6) == 64;
    Pow2Step(6);
    Pow2Step(14);
    Pow2Step(22);
    Pow2Step(30);
    Pow2Step(38);
    Pow2Step(46);
    Pow2Step(54);
  }

  lemma PositivePowers(n: nat)
    ensures Positive(Pow2(n)) <==> n < 63
  {
    Pow2Of62();
    Pow2Grows(0, n);
    if n < 63 {
      Pow2Grows(n, 62);
    } else {
      Pow2Grows(63, n);
    }
  }

  /** How many of the first 63 answers are too large before another one comes. */
  function Rejections(server: nat -> Response, first: nat): (n: nat)
    requires first <= 63
    ensures first <= n <= 63 && (n < 63 ==> server(n) != TooLarge)
    ensures forall j :: first <= j < n ==> server(j) == TooLarge
    decreases 63 - first
  {
    if first == 63 || server(first) != TooLarge then first else Rejections(server, first + 1)
  }

  lemma FirstAnswer(server: nat -> Response, n: nat)
    requires n <= 63 && (n < 63 ==> server(n) != TooLarge)
    requires forall j :: 0 <= j < n ==> server(j) == TooLarge
    ensures Rejections(server, 0) == n
  {
  }

  /** From the default denominator, whatever the server does: the i-th update
      divides by 2^i, there are at most 63 of them, the first answer that is not
      "too large" decides the result, and the denominator error is returned exactly
      when the first 63 answers all are, because doubling 2^62 wraps. */
  method SetStatus(server: nat -> Response) returns (result: Result, updates: seq<int>)
    ensures var n := Rejections(server, 0);
            && (result == DenominatorError <==> n == 63)
            && (result == Ok <==> n < 63 && server(n) in {UpToDate, Updated})
            && (result == ServerError <==> n < 63 && server(n) in {GetFailed, UpdateFailed})
            && |updates| == n + if n < 63 && server(n) in {Updated, UpdateFailed} then 1 else 0
    ensures |updates| <= 63 && forall i :: 0 <= i < |updates| ==> updates[i] == Pow2(i)
  {
    ghost var rejected;
    result, updates, rejected := SetStatusWithRetries(server, 0, 1);
    forall i: nat
      ensures Doubled(1, i) == Pow2(i)
    {
      DoubledIsProduct(1, i);
    }
    PositivePowers(rejected);
    if |updates| > 0 {
      PositivePowers(|updates| - 1);
    }
    FirstAnswer(server, if rejected < 63 then rejected else 63);
  }
}
