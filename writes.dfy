/**
 * The effect of a kernel on its output buffer, as an ordered log of
 * element writes applied to the buffer's old contents.
 */
module Writes {
  /** `data[addr] = value`. */
  datatype Write<T> = Write(addr: nat, value: T)

  /** The addresses of a write log, in order. */
  function Addrs<T>(ws: seq<Write<T>>): (a: seq<nat>)
    ensures |a| == |ws| && forall k :: 0 <= k < |ws| ==> a[k] == ws[k].addr
  {
    seq(|ws|, k requires 0 <= k < |ws| => ws[k].addr)
  }

  lemma AddrsConcat<T>(a: seq<Write<T>>, b: seq<Write<T>>)
    ensures Addrs(a + b) == Addrs(a) + Addrs(b)
  {
  }

  /** Every address in the log lies in `[lo, hi)`. */
  ghost predicate WithinRange<T>(ws: seq<Write<T>>, lo: nat, hi: nat) {
    forall k :: 0 <= k < |ws| ==> lo <= ws[k].addr < hi
  }

  /** Two logs in `[lo, hi)` are in `[lo, hi)` one after the other. */
  lemma WithinConcat<T>(a: seq<Write<T>>, b: seq<Write<T>>, lo: nat, hi: nat)
    requires WithinRange(a, lo, hi) && WithinRange(b, lo, hi)
    ensures WithinRange(a + b, lo, hi)
  {
    forall k | 0 <= k < |a + b|
      ensures lo <= (a + b)[k].addr < hi
    {
      if k >= |a| {
        assert (a + b)[k] == b[k - |a|];
      }
    }
  }

  /** A log in `[lo, hi)` is in every range around it. */
  lemma WithinWiden<T>(ws: seq<Write<T>>, lo: nat, hi: nat, lo': nat, hi': nat)
    requires WithinRange(ws, lo, hi) && lo' <= lo && hi <= hi'
    ensures WithinRange(ws, lo', hi')
  {
  }

  /** The logs `logs[0]`, ..., `logs[count - 1]`, one after the other. */
  function Flatten<T>(logs: seq<seq<Write<T>>>, count: nat): (ws: seq<Write<T>>)
    requires count <= |logs|
  {
    if count == 0 then [] else Flatten(logs, count - 1) + logs[count - 1]
  }

  /** An address one of the logs names is named by their concatenation. */
  lemma {:induction false} FlattenIncludes<T>(logs: seq<seq<Write<T>>>, count: nat, i: nat, a: nat)
    requires i < count <= |logs| && a in Addrs(logs[i])
    ensures a in Addrs(Flatten(logs, count))
  {
    AddrsConcat(Flatten(logs, count - 1), logs[count - 1]);
    if i < count - 1 {
      FlattenIncludes(logs, count - 1, i, a);
    }
  }

  /** Logs that each stay in `[lo, hi)` stay there together. */
  lemma {:induction false} FlattenWithin<T>(logs: seq<seq<Write<T>>>, count: nat, lo: nat, hi: nat)
    requires count <= |logs| && forall i :: 0 <= i < count ==> WithinRange(logs[i], lo, hi)
    ensures WithinRange(Flatten(logs, count), lo, hi)
  {
    if count > 0 {
      FlattenWithin(logs, count - 1, lo, hi);
      assert WithinRange(logs[count - 1], lo, hi);
    }
  }

  /** No address occurs twice. */
  ghost predicate Distinct(s: seq<nat>) {
    forall i, j :: 0 <= i < j < |s| ==> s[i] != s[j]
  }

  /** The buffer `s` after performing the writes of `ws` in order (a write past the end is dropped). */
  function ApplyWrites<T>(s: seq<T>, ws: seq<Write<T>>): (r: seq<T>)
    ensures |r| == |s|
  {
    if |ws| == 0 then s
    else
      var r := ApplyWrites(s, ws[..|ws| - 1]);
      var w := ws[|ws| - 1];
      if w.addr < |r| then r[w.addr := w.value] else r
  }

  /** Appending one write to a log updates that one element (if it is in range). */
  lemma ApplyWritesSnoc<T>(s: seq<T>, ws: seq<Write<T>>, w: Write<T>)
    ensures ApplyWrites(s, ws + [w]) == if w.addr < |s| then ApplyWrites(s, ws)[w.addr := w.value] else ApplyWrites(s, ws)
  {
    assert (ws + [w])[..|ws|] == ws;
  }

  /** Performing two logs one after the other is performing their concatenation. */
  lemma {:induction false} ApplyWritesConcat<T>(s: seq<T>, a: seq<Write<T>>, b: seq<Write<T>>)
    ensures ApplyWrites(s, a + b) == ApplyWrites(ApplyWrites(s, a), b)
    decreases |b|
  {
    if b == [] {
      assert a + b == a;
    } else {
      assert (a + b)[..|a + b| - 1] == a + b[..|b| - 1];
      assert (a + b)[|a + b| - 1] == b[|b| - 1];
      ApplyWritesConcat(s, a, b[..|b| - 1]);
    }
  }

  /** Performing three logs one after the other is performing their concatenation. */
  lemma ApplyWritesConcat3<T>(s: seq<T>, a: seq<Write<T>>, b: seq<Write<T>>, c: seq<Write<T>>)
    ensures ApplyWrites(s, a + b + c) == ApplyWrites(ApplyWrites(ApplyWrites(s, a), b), c)
  {
    ApplyWritesConcat(s, a + b, c);
    ApplyWritesConcat(s, a, b);
  }

  /** An element no write names keeps its old value. */
  lemma {:induction false} ApplyWritesUntouched<T>(s: seq<T>, ws: seq<Write<T>>, x: nat)
    requires x < |s| && x !in Addrs(ws)
    ensures ApplyWrites(s, ws)[x] == s[x]
    decreases |ws|
  {
    if ws != [] {
      var p := ws[..|ws| - 1];
      assert forall k :: 0 <= k < |p| ==> Addrs(p)[k] == Addrs(ws)[k];
      assert x != ws[|ws| - 1].addr by {
        assert Addrs(ws)[|ws| - 1] == ws[|ws| - 1].addr;
      }
      ApplyWritesUntouched(s, p, x);
    }
  }

  /** When no address is written twice, each element holds the value of the write that names it. */
  lemma {:induction false} ApplyWritesDistinct<T>(s: seq<T>, ws: seq<Write<T>>, k: nat)
    requires Distinct(Addrs(ws)) && k < |ws| && ws[k].addr < |s|
    ensures ApplyWrites(s, ws)[ws[k].addr] == ws[k].value
    decreases |ws|
  {
    var p := ws[..|ws| - 1];
    var last := ws[|ws| - 1];
    if k < |ws| - 1 {
      assert Addrs(ws)[k] != Addrs(ws)[|ws| - 1];
      assert forall i :: 0 <= i < |p| ==> Addrs(p)[i] == Addrs(ws)[i];
      assert Distinct(Addrs(p));
      assert p[k] == ws[k];
      ApplyWritesDistinct(s, p, k);
    }
  }

  /** The set of numbers a sequence holds. */
  function Elems(s: seq<nat>): (r: set<nat>)
    ensures forall x :: x in r <==> x in s
  {
    set x | x in s
  }

  lemma {:induction false} ElemsSize(s: seq<nat>)
    ensures |Elems(s)| <= |s|
    ensures !Distinct(s) ==> |Elems(s)| < |s|
    decreases |s|
  {
    if s != [] {
      var t := s[1..];
      ElemsSize(t);
      assert Elems(s) == {s[0]} + Elems(t);
      if !Distinct(s) {
        var i, j :| 0 <= i < j < |s| && s[i] == s[j];
        if i == 0 {
          assert s[0] == t[j - 1];
          assert Elems(s) == Elems(t);
        } else {
          assert t[i - 1] == t[j - 1];
        }
      }
    }
  }

  /** The numbers below `n`. */
  function Below(n: nat): (r: set<nat>)
    ensures forall x: nat :: x in r <==> x < n
    ensures |r| == n
  {
    if n == 0 then {} else Below(n - 1) + {n - 1}
  }

  /** A sequence of length `n` that holds every number below `n`, and nothing else, repeats none. */
  lemma {:induction false} CoverImpliesDistinct(s: seq<nat>, n: nat)
    requires |s| == n
    requires forall x :: 0 <= x < n ==> x in s
    requires forall k :: 0 <= k < |s| ==> s[k] < n
    ensures Distinct(s)
  {
    assert Elems(s) == Below(n);
    ElemsSize(s);
  }
}
