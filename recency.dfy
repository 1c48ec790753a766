/**
 * The order in which the resolver considers candidate transcripts: most
 * recently modified first, ties broken by path. `ByRecency` is the model of
 * `sorted(..., key=os.path.getmtime, reverse=True)`.
 */
module Recency {
  import opened PathOrder

  /** Modification times of the files in the project directory. */
  type MTimes = map<string, real>

  /** Every listed file has a modification time. */
  predicate Timed(ts: seq<string>, mtime: MTimes)
  {
    forall i :: 0 <= i < |ts| ==> ts[i] in mtime
  }

  /** `a` is considered before `b`: it is newer, or as new and first by path. */
  predicate Newer(a: string, b: string, mtime: MTimes)
    requires a in mtime && b in mtime
  {
    mtime[a] > mtime[b] || (mtime[a] == mtime[b] && PathLess(a, b))
  }

  lemma NewerIrreflexive(a: string, mtime: MTimes)
    requires a in mtime
    ensures !Newer(a, a, mtime)
  {
    PathLessIrreflexive(a);
  }

  lemma NewerTransitive(a: string, b: string, c: string, mtime: MTimes)
    requires a in mtime && b in mtime && c in mtime
    requires Newer(a, b, mtime) && Newer(b, c, mtime)
    ensures Newer(a, c, mtime)
  {
    if mtime[a] == mtime[b] == mtime[c] {
      PathLessTransitive(a, b, c);
    }
  }

  lemma NewerTotal(a: string, b: string, mtime: MTimes)
    requires a in mtime && b in mtime && a != b
    ensures Newer(a, b, mtime) || Newer(b, a, mtime)
  {
    PathLessTotal(a, b);
  }

  /** No element is considered after one that is newer than it. */
  predicate Descending(o: seq<string>, mtime: MTimes)
    requires Timed(o, mtime)
  {
    forall i, j :: 0 <= i < j < |o| ==> !Newer(o[j], o[i], mtime)
  }

  /** In a list in recency order, an element newer than another comes
      before it. */
  lemma NewerComesFirst(o: seq<string>, mtime: MTimes, i: nat, j: nat)
    requires Timed(o, mtime) && Descending(o, mtime)
    requires i < |o| && j < |o| && Newer(o[i], o[j], mtime)
    ensures i < j
  {
    NewerIrreflexive(o[i], mtime);
  }

  /** Inserts `x` into a list already in recency order. */
  function Insert(x: string, o: seq<string>, mtime: MTimes): (r: seq<string>)
    requires x in mtime && Timed(o, mtime)
    ensures Timed(r, mtime)
    ensures multiset(r) == multiset(o) + multiset{x}
  {
    if o == [] then [x]
    else if Newer(x, o[0], mtime) then [x] + o
    else
      assert o == [o[0]] + o[1..];
      [o[0]] + Insert(x, o[1..], mtime)
  }

  /** A member of a list in recency order is not newer than its head. */
  lemma HeadFirst(o: seq<string>, mtime: MTimes, y: string)
    requires Timed(o, mtime) && Descending(o, mtime) && |o| > 0 && y in o
    ensures !Newer(y, o[0], mtime)
  {
    var k :| 0 <= k < |o| && o[k] == y;
    if k == 0 {
      NewerIrreflexive(y, mtime);
    }
  }

  lemma InsertFront(x: string, o: seq<string>, mtime: MTimes)
    requires x in mtime && Timed(o, mtime) && Descending(o, mtime)
    requires |o| > 0 && Newer(x, o[0], mtime)
    ensures Descending([x] + o, mtime)
  {
    var r := [x] + o;
    forall i, j | 0 <= i < j < |r| ensures !Newer(r[j], r[i], mtime) {
      if i == 0 && Newer(r[j], x, mtime) {
        HeadFirst(o, mtime, r[j]);
        NewerTransitive(r[j], x, o[0], mtime);
      }
    }
  }

  lemma InsertBehind(o0: string, tail: seq<string>, mtime: MTimes)
    requires o0 in mtime && Timed(tail, mtime) && Descending(tail, mtime)
    requires forall j :: 0 <= j < |tail| ==> !Newer(tail[j], o0, mtime)
    ensures Descending([o0] + tail, mtime)
  {
    var r := [o0] + tail;
    forall i, j | 0 <= i < j < |r| ensures !Newer(r[j], r[i], mtime) {
      assert r[j] == tail[j - 1];
      if i > 0 {
        assert r[i] == tail[i - 1];
      }
    }
  }

  lemma {:induction false} InsertDescending(x: string, o: seq<string>, mtime: MTimes)
    requires x in mtime && Timed(o, mtime) && Descending(o, mtime)
    ensures Descending(Insert(x, o, mtime), mtime)
  {
    if o == [] {
    } else if Newer(x, o[0], mtime) {
      InsertFront(x, o, mtime);
    } else {
      InsertDescending(x, o[1..], mtime);
      var tail := Insert(x, o[1..], mtime);
      forall j | 0 <= j < |tail| ensures !Newer(tail[j], o[0], mtime) {
        assert tail[j] in multiset(tail);
        if tail[j] != x {
          assert tail[j] in multiset(o[1..]);
          assert tail[j] in o;
          HeadFirst(o, mtime, tail[j]);
        }
      }
      InsertBehind(o[0], tail, mtime);
    }
  }

  /** The candidates in the order the resolver tries them. */
  function ByRecency(ts: seq<string>, mtime: MTimes): (r: seq<string>)
    requires Timed(ts, mtime)
    ensures Timed(r, mtime)
    ensures multiset(r) == multiset(ts)
    ensures Descending(r, mtime)
  {
    if ts == [] then []
    else
      var rest := ByRecency(ts[..|ts| - 1], mtime);
      InsertDescending(ts[|ts| - 1], rest, mtime);
      assert ts == ts[..|ts| - 1] + [ts[|ts| - 1]];
      Insert(ts[|ts| - 1], rest, mtime)
  }

  /** The recency order holds exactly the listed files. */
  lemma ByRecencyMembers(ts: seq<string>, mtime: MTimes, x: string)
    requires Timed(ts, mtime)
    ensures x in ByRecency(ts, mtime) <==> x in ts
  {
    var r := ByRecency(ts, mtime);
    assert x in r <==> x in multiset(r);
    assert x in ts <==> x in multiset(ts);
  }
}
