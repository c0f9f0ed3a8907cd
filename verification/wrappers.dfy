/** The two shapes Go uses for an answer that may be missing: an optional
    value, as a `value, ok` pair, and a result that carries either a value
    or an error, as a `value, err` pair. */
module Wrappers {

  datatype Option<+T> = None | Some(value: T) {

    /** The wrapped value, or `default` when there is none. */
    function GetOr(default: T): T {
      match this
      case Some(v) => v
      case None => default
    }
  }

  datatype Result<+R, +E> = Success(value: R) | Failure(error: E) {

    /** The success value, or `default` when this is a failure: the way the
        program's caller logs an error and keeps what it already had. */
    function GetOr(default: R): R {
      match this
      case Success(v) => v
      case Failure(_) => default
    }
  }

  /** Applies `f` to every element, keeping order and length. */
  function Map<A, B>(f: A -> B, s: seq<A>): (r: seq<B>)
    ensures |r| == |s|
    ensures forall i :: 0 <= i < |s| ==> r[i] == f(s[i])
  {
    seq(|s|, i requires 0 <= i < |s| => f(s[i]))
  }

  lemma MapAppend<A, B>(f: A -> B, s: seq<A>, t: seq<A>)
    ensures Map(f, s + t) == Map(f, s) + Map(f, t)
  {
  }

  /** The values `f` gives for the elements of `s`, in order; elements it
      gives nothing for are skipped. */
  function Collect<A, B>(f: A -> Option<B>, s: seq<A>): (r: seq<B>)
    ensures |r| <= |s|
    decreases |s|
  {
    if s == [] then []
    else (match f(s[0]) case Some(b) => [b] case None => []) + Collect(f, s[1..])
  }

  lemma {:induction false} CollectAppend<A, B>(f: A -> Option<B>, s: seq<A>, t: seq<A>)
    ensures Collect(f, s + t) == Collect(f, s) + Collect(f, t)
    decreases |s|
  {
    if s == [] {
      assert s + t == t;
    } else {
      var h := match f(s[0]) case Some(b) => [b] case None => [];
      assert (s + t)[0] == s[0];
      assert (s + t)[1..] == s[1..] + t;
      assert Collect(f, s + t) == h + Collect(f, s[1..] + t);
      CollectAppend(f, s[1..], t);
      assert Collect(f, s) == h + Collect(f, s[1..]);
      assert h + (Collect(f, s[1..]) + Collect(f, t)) == (h + Collect(f, s[1..])) + Collect(f, t);
    }
  }

  /** Elements that `f` maps alike give the same collection. */
  lemma {:induction false} CollectAlike<A, B>(f: A -> Option<B>, s: seq<A>, t: seq<A>)
    requires |s| == |t| && forall i :: 0 <= i < |s| ==> f(s[i]) == f(t[i])
    ensures Collect(f, s) == Collect(f, t)
    decreases |s|
  {
    if s != [] {
      assert f(s[0]) == f(t[0]);
      CollectAlike(f, s[1..], t[1..]);
    }
  }

  /** Nothing is collected when `f` gives nothing for every element. */
  lemma {:induction false} CollectNone<A, B>(f: A -> Option<B>, s: seq<A>)
    requires forall i :: 0 <= i < |s| ==> f(s[i]).None?
    ensures Collect(f, s) == []
    decreases |s|
  {
    if s != [] {
      assert f(s[0]).None?;
      CollectNone(f, s[1..]);
    }
  }

  /** The elements of `s` that satisfy `p`, in order. */
  function Filter<A>(p: A -> bool, s: seq<A>): (r: seq<A>)
    ensures |r| <= |s|
    ensures forall i :: 0 <= i < |r| ==> p(r[i])
    decreases |s|
  {
    if s == [] then []
    else (if p(s[0]) then [s[0]] else []) + Filter(p, s[1..])
  }

  lemma {:induction false} FilterAppend<A>(p: A -> bool, s: seq<A>, t: seq<A>)
    ensures Filter(p, s + t) == Filter(p, s) + Filter(p, t)
    decreases |s|
  {
    if s == [] {
      assert s + t == t;
    } else {
      var h := if p(s[0]) then [s[0]] else [];
      assert (s + t)[0] == s[0];
      assert (s + t)[1..] == s[1..] + t;
      assert Filter(p, s + t) == h + Filter(p, s[1..] + t);
      FilterAppend(p, s[1..], t);
      assert Filter(p, s) == h + Filter(p, s[1..]);
      assert h + (Filter(p, s[1..]) + Filter(p, t)) == (h + Filter(p, s[1..])) + Filter(p, t);
    }
  }

  /** A left fold in which every present value overwrites the one before:
      the last present value, or `current` when there is none. */
  function LastSome<B>(s: seq<Option<B>>, current: B): B
    decreases |s|
  {
    if s == [] then current else LastSome(s[1..], s[0].GetOr(current))
  }

  /** Last write wins: the fold yields the last present value, and keeps
      `current` when every value is absent. */
  lemma {:induction false} LastSomeWins<B>(s: seq<Option<B>>, current: B)
    ensures (forall i :: 0 <= i < |s| ==> s[i].None?) ==> LastSome(s, current) == current
    ensures forall i :: 0 <= i < |s| && s[i].Some? && (forall j :: i < j < |s| ==> s[j].None?)
                        ==> LastSome(s, current) == s[i].value
    decreases |s|
  {
    if s != [] {
      var tail, next := s[1..], s[0].GetOr(current);
      LastSomeWins(tail, next);
      assert forall k :: 0 <= k < |tail| ==> tail[k] == s[k + 1];
      forall i | 0 <= i < |s| && s[i].Some? && (forall j :: i < j < |s| ==> s[j].None?)
        ensures LastSome(s, current) == s[i].value
      {
        if i == 0 {
          assert forall k :: 0 <= k < |tail| ==> tail[k].None?;
        } else {
          assert tail[i - 1] == s[i];
          assert forall j :: i - 1 < j < |tail| ==> tail[j].None?;
        }
      }
    }
  }

  /** `LastSomeWins` for one chosen position. */
  lemma LastSomeAt<B>(s: seq<Option<B>>, current: B, i: int)
    requires 0 <= i < |s| && s[i].Some?
    requires forall j :: i < j < |s| ==> s[j].None?
    ensures LastSome(s, current) == s[i].value
  {
    LastSomeWins(s, current);
  }

  /** `LastSomeWins` when nothing is present. */
  lemma LastSomeNone<B>(s: seq<Option<B>>, current: B)
    requires forall i :: 0 <= i < |s| ==> s[i].None?
    ensures LastSome(s, current) == current
  {
    LastSomeWins(s, current);
  }

  /** The fold yields `current` or one of the present values. */
  lemma {:induction false} LastSomeFrom<B>(s: seq<Option<B>>, current: B)
    ensures LastSome(s, current) == current
            || exists i :: 0 <= i < |s| && s[i] == Some(LastSome(s, current))
    decreases |s|
  {
    if s != [] {
      var tail, next := s[1..], s[0].GetOr(current);
      LastSomeFrom(tail, next);
      var r := LastSome(s, current);
      assert r == LastSome(tail, next);
      if r != next {
        var i :| 0 <= i < |tail| && tail[i] == Some(r);
        assert s[i + 1] == Some(r);
      } else if s[0].Some? {
        assert s[0] == Some(r);
      }
    }
  }
}
