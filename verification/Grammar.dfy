/** Repetition of a self-delimiting item, for any item parser: a counted run and a run to the end of the input. */
module Grammar {
  import opened Bytes

  /** Reads one item at the head of the input and says how many bytes it took. */
  type Parser<!T> = seq<byte> -> Option<(T, nat)>

  /** An item takes at least `least` bytes and never more than there are. */
  ghost predicate Sound<T>(p: Parser<T>, least: nat) {
    forall s: seq<byte> :: p(s).Some? ==> least <= p(s).value.1 <= |s|
  }

  /** `p` reads back what `w` writes, whatever follows. */
  ghost predicate Inverts<T(!new)>(p: Parser<T>, w: T -> seq<byte>) {
    forall x: T, t: seq<byte> :: p(w(x) + t) == Some((x, |w(x)|))
  }

  function Many<T>(p: Parser<T>, s: seq<byte>, count: nat): Option<(seq<T>, nat)>
    requires Sound(p, 1)
    decreases count
  {
    if count == 0 then Some(([], 0))
    else match p(s)
      case None => None
      case Some((x, k)) =>
        match Many(p, s[k..], count - 1)
        case None => None
        case Some((xs, j)) => Some(([x] + xs, k + j))
  }

  function All<T>(p: Parser<T>, s: seq<byte>): Option<seq<T>>
    requires Sound(p, 1)
    decreases |s|
  {
    if s == [] then Some([])
    else match p(s)
      case None => None
      case Some((x, k)) =>
        match All(p, s[k..])
        case None => None
        case Some(xs) => Some([x] + xs)
  }

  function Joined<T>(w: T -> seq<byte>, xs: seq<T>): seq<byte> {
    if xs == [] then [] else w(xs[0]) + Joined(w, xs[1..])
  }

  lemma Behind(a: seq<byte>, b: seq<byte>, t: seq<byte>)
    ensures (a + b + t)[|a|..] == b + t && a + b + t == a + (b + t)
  {
  }

  lemma {:induction false} JoinedSplit<T>(w: T -> seq<byte>, xs: seq<T>, k: nat)
    requires k <= |xs|
    ensures Joined(w, xs) == Joined(w, xs[..k]) + Joined(w, xs[k..])
  {
    if k > 0 {
      JoinedSplit(w, xs[1..], k - 1);
      assert xs[..k][1..] == xs[1..][..k - 1] && xs[1..][k - 1..] == xs[k..];
    }
  }

  lemma JoinedNext<T>(w: T -> seq<byte>, xs: seq<T>, k: nat)
    requires k < |xs|
    ensures Joined(w, xs[..k + 1]) == Joined(w, xs[..k]) + w(xs[k])
    ensures |Joined(w, xs[..k + 1])| <= |Joined(w, xs)|
  {
    JoinedSplit(w, xs, k + 1);
    JoinedSplit(w, xs[..k + 1], k);
    assert xs[..k + 1][..k] == xs[..k] && xs[..k + 1][k..] == [xs[k]];
    assert [xs[k]][1..] == [];
  }

  lemma {:induction false} ManyRoundTrip<T(!new)>(p: Parser<T>, w: T -> seq<byte>, xs: seq<T>, t: seq<byte>)
    requires Sound(p, 1) && Inverts(p, w)
    ensures Many(p, Joined(w, xs) + t, |xs|) == Some((xs, |Joined(w, xs)|))
  {
    if xs != [] {
      var first, rest := w(xs[0]), Joined(w, xs[1..]);
      Behind(first, rest, t);
      assert p(first + (rest + t)) == Some((xs[0], |first|));
      ManyRoundTrip(p, w, xs[1..], t);
      assert [xs[0]] + xs[1..] == xs;
    }
  }

  lemma {:induction false} AllRoundTrip<T(!new)>(p: Parser<T>, w: T -> seq<byte>, xs: seq<T>)
    requires Sound(p, 1) && Inverts(p, w)
    ensures All(p, Joined(w, xs)) == Some(xs)
  {
    if xs != [] {
      var first, rest := w(xs[0]), Joined(w, xs[1..]);
      assert p(first + rest) == Some((xs[0], |first|));
      assert (first + rest)[|first|..] == rest;
      AllRoundTrip(p, w, xs[1..]);
      assert [xs[0]] + xs[1..] == xs;
    }
  }

  /** `count` items of at least `least` bytes each take at least `least * count`. */
  lemma {:induction false} ManyNeed<T>(p: Parser<T>, least: nat, s: seq<byte>, count: nat)
    requires least >= 1 && Sound(p, least) && Sound(p, 1) && Many(p, s, count).Some?
    ensures least * count <= Many(p, s, count).value.1 <= |s| && |Many(p, s, count).value.0| == count
    decreases count
  {
    if count > 0 {
      ManyNeed(p, least, s[p(s).value.1..], count - 1);
      assert least * count == least * (count - 1) + least;
    }
  }

  // ---------- the loops ----------

  /** The items still to be read complete those read so far. */
  ghost predicate ManyPending<T>(p: Parser<T>, all: Option<(seq<T>, nat)>, xs: seq<T>, taken: nat, rest: seq<byte>, left: nat)
    requires Sound(p, 1)
  {
    all == match Many(p, rest, left)
      case None => None
      case Some((more, k)) => Some((xs + more, taken + k))
  }

  lemma ManyPendingEnds<T>(p: Parser<T>, all: Option<(seq<T>, nat)>, xs: seq<T>, taken: nat, rest: seq<byte>, count: nat)
    requires Sound(p, 1)
    ensures ManyPending(p, Many(p, rest, count), [], 0, rest, count)
    ensures ManyPending(p, all, xs, taken, rest, 0) ==> all == Some((xs, taken))
  {
    assert xs + [] == xs;
    if Many(p, rest, count).Some? {
      assert [] + Many(p, rest, count).value.0 == Many(p, rest, count).value.0;
    }
  }

  lemma ManyPendingStep<T>(p: Parser<T>, all: Option<(seq<T>, nat)>, xs: seq<T>, taken: nat, rest: seq<byte>, left: nat)
    requires Sound(p, 1) && ManyPending(p, all, xs, taken, rest, left) && left > 0
    ensures p(rest).None? ==> all.None?
    ensures p(rest).Some? ==>
      ManyPending(p, all, xs + [p(rest).value.0], taken + p(rest).value.1, rest[p(rest).value.1..], left - 1)
  {
    if p(rest).Some? {
      var (x, k) := p(rest).value;
      var tail := Many(p, rest[k..], left - 1);
      if tail.Some? {
        assert xs + ([x] + tail.value.0) == xs + [x] + tail.value.0;
      }
    }
  }

  ghost predicate AllPending<T>(p: Parser<T>, all: Option<seq<T>>, xs: seq<T>, rest: seq<byte>)
    requires Sound(p, 1)
  {
    all == match All(p, rest)
      case None => None
      case Some(more) => Some(xs + more)
  }

  lemma AllPendingEnds<T>(p: Parser<T>, all: Option<seq<T>>, xs: seq<T>, rest: seq<byte>)
    requires Sound(p, 1)
    ensures AllPending(p, All(p, rest), [], rest)
    ensures AllPending(p, all, xs, []) ==> all == Some(xs)
  {
    assert xs + [] == xs;
    if All(p, rest).Some? {
      assert [] + All(p, rest).value == All(p, rest).value;
    }
  }

  lemma AllPendingStep<T>(p: Parser<T>, all: Option<seq<T>>, xs: seq<T>, rest: seq<byte>)
    requires Sound(p, 1) && AllPending(p, all, xs, rest) && rest != []
    ensures p(rest).None? ==> all.None?
    ensures p(rest).Some? ==> AllPending(p, all, xs + [p(rest).value.0], rest[p(rest).value.1..])
  {
    if p(rest).Some? {
      var (x, k) := p(rest).value;
      var tail := All(p, rest[k..]);
      if tail.Some? {
        assert xs + ([x] + tail.value) == xs + [x] + tail.value;
      }
    }
  }
}
