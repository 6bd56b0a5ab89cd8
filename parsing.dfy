/** Bytes, parse results, and the observable behaviour of the byte-level
    combinators (`tag`, `take`, `rest`, `all_consuming`, `map_parser`) that
    the section parsers are composed from. */
module Parsing {

  /** An unsigned 8-bit value (Rust's `u8`). */
  type byte = x: int | 0 <= x < 256

  /** The outcome of running a parser: the decoded value together with the
      input it did not consume, or a failure. Every failure is the same kind:
      the combinators' diagnostics are not kept. */
  datatype Result<+T> = Ok(value: T, remaining: seq<byte>) | Failure {

    predicate IsFailure() {
      Failure?
    }

    function PropagateFailure<U>(): Result<U>
      requires Failure?
    {
      Failure
    }

    function Extract(): (T, seq<byte>)
      requires Ok?
    {
      (value, remaining)
    }
  }

  /** A parser maps an input slice to a result. */
  type Parser<T> = seq<byte> -> Result<T>

  /** `t` is what is left of `s` after dropping some bytes from its front. */
  predicate IsSuffix(t: seq<byte>, s: seq<byte>) {
    |t| <= |s| && s[|s| - |t|..] == t
  }

  /** A parser that, whenever it succeeds, consumes a non-empty prefix of
      its input and returns the untouched rest. */
  ghost predicate ConsumesPrefix<T>(p: Parser<T>) {
    forall s :: p(s).Ok? ==> |p(s).remaining| < |s| && IsSuffix(p(s).remaining, s)
  }

  lemma SuffixTransitive(r: seq<byte>, t: seq<byte>, s: seq<byte>)
    requires IsSuffix(r, t) && IsSuffix(t, s)
    ensures IsSuffix(r, s)
  {
    assert s[|s| - |r|..] == s[|s| - |t|..][|t| - |r|..];
  }

  lemma ConcatAssoc(a: seq<byte>, b: seq<byte>, c: seq<byte>)
    ensures (a + b) + c == a + (b + c)
  {
  }

  /** `tag(&[b])`: matches the single byte `b` at the front of the input. */
  function Tag(b: byte, s: seq<byte>): (r: Result<seq<byte>>)
    ensures r.Ok? <==> |s| > 0 && s[0] == b
    ensures r.Ok? ==> r.value == [b] && |r.remaining| == |s| - 1 && IsSuffix(r.remaining, s)
  {
    if |s| > 0 && s[0] == b then Ok([b], s[1..]) else Failure
  }

  /** `take(n)`: the first `n` bytes, failing when fewer are available. */
  function Take(n: nat, s: seq<byte>): (r: Result<seq<byte>>)
    ensures r.Ok? <==> n <= |s|
    ensures r.Ok? ==> |r.value| == n && r.value + r.remaining == s
  {
    if n <= |s| then Ok(s[..n], s[n..]) else Failure
  }

  /** `rest`: everything that is left, possibly nothing. */
  function Rest(s: seq<byte>): (r: Result<seq<byte>>)
    ensures r.Ok? && r.value + r.remaining == s && r.remaining == []
  {
    Ok(s, [])
  }

  /** `all_consuming(p)`: runs `p` and fails if it leaves any input behind. */
  function AllConsuming<T>(p: Parser<T>, s: seq<byte>): (r: Result<T>)
    ensures r.Ok? <==> p(s).Ok? && p(s).remaining == []
    ensures r.Ok? ==> r.value == p(s).value && r.remaining == []
  {
    match p(s)
    case Failure => Failure
    case Ok(v, r) => if r == [] then Ok(v, r) else Failure
  }

  /** `map_parser(first, second)`: runs `first`, then runs `second` on the
      bytes that `first` produced; what `second` leaves of them is dropped and
      the result continues after what `first` consumed. */
  function MapParser<T>(first: Parser<seq<byte>>, second: Parser<T>, s: seq<byte>): (r: Result<T>)
    ensures r.Ok? <==> first(s).Ok? && second(first(s).value).Ok?
    ensures r.Ok? ==> r.value == second(first(s).value).value && r.remaining == first(s).remaining
  {
    match first(s)
    case Failure => Failure
    case Ok(inner, r) =>
      match second(inner)
      case Failure => Failure
      case Ok(v, _) => Ok(v, r)
  }
}
