/** Operations on the catalog list (`data/videos.json`) shared by the reconciler, the
    producer and the list endpoint: the visibility rule, the search by id, insertion
    or replacement by id, and what a list means as a dictionary from id to record. */
module Catalog {
  import opened Schema

  /** The catalog file as a reader finds it: absent, not parseable as JSON, or a list
      of records. */
  datatype CatalogFile = Missing | Unreadable | Records(videos: seq<Video>)

  /** The reserved id of the sample record. */
  const DemoId := "demo"

  /** A record the pipeline keeps and the list endpoint shows: not the sample record,
      and with a non-empty video handle. */
  predicate Visible(v: Video) {
    v.id != DemoId && v.file_id != ""
  }

  predicate IdsUnique(s: seq<Video>) {
    forall i, j :: 0 <= i < j < |s| ==> s[i].id != s[j].id
  }

  /** The ids present in a list. */
  function Ids(s: seq<Video>): set<string> {
    set i | 0 <= i < |s| :: s[i].id
  }

  /** `findIndex(v => v.id === id)`: the first position holding `id`, or -1. */
  function FindIndex(s: seq<Video>, id: string): (i: int)
    ensures -1 <= i < |s|
    ensures 0 <= i ==> s[i].id == id && forall j :: 0 <= j < i ==> s[j].id != id
    ensures i == -1 ==> forall j :: 0 <= j < |s| ==> s[j].id != id
  {
    if s == [] then -1
    else if s[0].id == id then 0
    else
      var k := FindIndex(s[1..], id);
      if k < 0 then -1 else k + 1
  }

  /** Insertion or replacement by id: the first record with the same id is replaced
      where it stands; without one, the record goes at the end. This is what both
      `Map.prototype.set` (on the entries in insertion order) and the findIndex /
      assign / push of the producer do. */
  function Upsert(s: seq<Video>, v: Video): (r: seq<Video>)
    ensures |r| == |s| || r == s + [v]
  {
    var k := FindIndex(s, v.id);
    if k >= 0 then s[k := v] else s + [v]
  }

  /** Upsert each record of `s` in turn. */
  function SetAll(m: seq<Video>, s: seq<Video>): seq<Video>
    decreases |s|
  {
    if s == [] then m else SetAll(Upsert(m, s[0]), s[1..])
  }

  /** What a list of records says once later entries override earlier ones with the
      same id: each id maps to the last record carrying it. */
  function LastMap(s: seq<Video>): map<string, Video>
    decreases |s|
  {
    if s == [] then map[] else LastMap(s[..|s| - 1])[s[|s| - 1].id := s[|s| - 1]]
  }

  lemma {:induction false} LastMapKeys(s: seq<Video>)
    ensures LastMap(s).Keys == Ids(s)
    decreases |s|
  {
    if s != [] {
      var p := s[..|s| - 1];
      LastMapKeys(p);
      forall k ensures k in Ids(s) <==> k in Ids(p) || k == s[|s| - 1].id {
        if k in Ids(s) {
          var i :| 0 <= i < |s| && s[i].id == k;
          if i < |s| - 1 {
            assert p[i] == s[i];
          }
        }
        if k in Ids(p) {
          var i :| 0 <= i < |p| && p[i].id == k;
          assert s[i] == p[i];
        }
      }
    }
  }

  /** The record at position `i` is what its id maps to when no later record has that id. */
  lemma {:induction false} LastMapIsLast(s: seq<Video>, i: int)
    requires 0 <= i < |s|
    requires forall j :: i < j < |s| ==> s[j].id != s[i].id
    ensures s[i].id in LastMap(s) && LastMap(s)[s[i].id] == s[i]
    decreases |s|
  {
    if i < |s| - 1 {
      var p := s[..|s| - 1];
      LastMapIsLast(p, i);
    }
  }

  /** The id a key maps to comes from the last record with that id. */
  lemma {:induction false} LastMapSource(s: seq<Video>, k: string)
    requires k in LastMap(s)
    ensures exists i ::
      (0 <= i < |s| && s[i] == LastMap(s)[k] && s[i].id == k && forall j :: i < j < |s| ==> s[j].id != k)
    decreases |s|
  {
    var p := s[..|s| - 1];
    if s[|s| - 1].id != k {
      LastMapSource(p, k);
      var i :| 0 <= i < |p| && p[i] == LastMap(p)[k] && p[i].id == k &&
        (forall j :: i < j < |p| ==> p[j].id != k);
      assert s[i] == p[i];
    }
  }

  /** Later lists override earlier ones: the dictionary of a concatenation is the
      right-biased union of the dictionaries. */
  lemma {:induction false} LastMapConcat(a: seq<Video>, b: seq<Video>)
    ensures LastMap(a + b) == LastMap(a) + LastMap(b)
    decreases |b|
  {
    if b == [] {
      assert a + b == a;
    } else {
      var b' := b[..|b| - 1];
      var x := b[|b| - 1];
      LastMapConcat(a, b');
      assert (a + b)[..|a + b| - 1] == a + b';
      assert (a + b)[|a + b| - 1] == x;
    }
  }

  /** In a list without repeated ids every record is what its id maps to. */
  lemma UniqueLastMap(s: seq<Video>)
    requires IdsUnique(s)
    ensures forall i :: 0 <= i < |s| ==> s[i].id in LastMap(s) && LastMap(s)[s[i].id] == s[i]
  {
    forall i | 0 <= i < |s| ensures s[i].id in LastMap(s) && LastMap(s)[s[i].id] == s[i] {
      LastMapIsLast(s, i);
    }
  }

  /** In a list without repeated ids, a record is in the list exactly when its id maps to it. */
  lemma UniqueMembership(s: seq<Video>, x: Video)
    requires IdsUnique(s)
    ensures x in s <==> x.id in LastMap(s) && LastMap(s)[x.id] == x
  {
    UniqueLastMap(s);
    if x.id in LastMap(s) {
      LastMapSource(s, x.id);
    }
  }

  /** Upsert keeps ids unique, keeps the ids of the present positions and can only
      add an id that was absent. */
  lemma UpsertShape(m: seq<Video>, v: Video)
    requires IdsUnique(m)
    ensures var r := Upsert(m, v);
      && IdsUnique(r)
      && |r| >= |m|
      && (forall j :: 0 <= j < |m| ==> r[j].id == m[j].id)
      && (forall p, j :: |m| <= p < |r| && 0 <= j < |m| ==> r[p].id != m[j].id)
  {
    var k := FindIndex(m, v.id);
    if k >= 0 {
      assert Upsert(m, v) == m[k := v];
    } else {
      assert Upsert(m, v) == m + [v];
    }
  }

  /** Replacing a record by one with the same id updates the dictionary at that id,
      provided no later record carries the id. */
  lemma {:induction false} LastMapReplace(m: seq<Video>, k: int, v: Video)
    requires 0 <= k < |m| && m[k].id == v.id
    requires forall j :: k < j < |m| ==> m[j].id != v.id
    ensures LastMap(m[k := v]) == LastMap(m)[v.id := v]
    decreases |m|
  {
    var r := m[k := v];
    var p := m[..|m| - 1];
    if k == |m| - 1 {
      assert r[..|r| - 1] == p;
    } else {
      assert r[..|r| - 1] == p[k := v];
      LastMapReplace(p, k, v);
      assert r[|r| - 1] == m[|m| - 1];
    }
  }

  /** Upsert updates the dictionary at one key. */
  lemma UpsertLastMap(m: seq<Video>, v: Video)
    requires IdsUnique(m)
    ensures LastMap(Upsert(m, v)) == LastMap(m)[v.id := v]
  {
    var r := Upsert(m, v);
    var k := FindIndex(m, v.id);
    if k >= 0 {
      LastMapReplace(m, k, v);
    } else {
      assert r == m + [v];
      assert r[..|r| - 1] == m;
    }
  }

  /** Upserting a list of records keeps ids unique, keeps the ids of the present
      positions, and appends new ids after them. */
  lemma {:induction false} SetAllShape(m: seq<Video>, s: seq<Video>)
    requires IdsUnique(m)
    ensures var r := SetAll(m, s);
      && IdsUnique(r)
      && |r| >= |m|
      && (forall j :: 0 <= j < |m| ==> r[j].id == m[j].id)
      && (forall p, j :: |m| <= p < |r| && 0 <= j < |m| ==> r[p].id != m[j].id)
    decreases |s|
  {
    if s != [] {
      var m1 := Upsert(m, s[0]);
      UpsertShape(m, s[0]);
      SetAllShape(m1, s[1..]);
      var r := SetAll(m, s);
      assert r == SetAll(m1, s[1..]);
      forall p, j | |m| <= p < |r| && 0 <= j < |m| ensures r[p].id != m[j].id {
        if p < |m1| {
          assert r[p].id == m1[p].id;
        } else {
          assert r[p].id != m1[j].id;
        }
      }
    }
  }

  lemma AppendHead(m: seq<Video>, s: seq<Video>)
    requires s != []
    ensures m + [s[0]] + s[1..] == m + s
  {
    assert [s[0]] + s[1..] == s;
  }

  /** Lists with the same dictionary keep the same dictionary when extended alike. */
  lemma ConcatCongruence(a: seq<Video>, b: seq<Video>, t: seq<Video>)
    requires LastMap(a) == LastMap(b)
    ensures LastMap(a + t) == LastMap(b + t)
  {
    LastMapConcat(a, t);
    LastMapConcat(b, t);
  }

  /** As a dictionary, upserting is appending. */
  lemma UpsertAsAppend(m: seq<Video>, v: Video)
    requires IdsUnique(m)
    ensures LastMap(Upsert(m, v)) == LastMap(m + [v])
  {
    UpsertLastMap(m, v);
    assert (m + [v])[..|m|] == m;
  }

  /** Upserting a list of records gives the dictionary of the concatenation: later
      records win. */
  lemma {:induction false} SetAllLastMap(m: seq<Video>, s: seq<Video>)
    requires IdsUnique(m)
    ensures LastMap(SetAll(m, s)) == LastMap(m + s)
    decreases |s|
  {
    if s == [] {
      assert m + s == m;
    } else {
      var m1 := Upsert(m, s[0]);
      var ms := m + [s[0]];
      UpsertShape(m, s[0]);
      UpsertAsAppend(m, s[0]);
      SetAllLastMap(m1, s[1..]);
      ConcatCongruence(m1, ms, s[1..]);
      AppendHead(m, s);
    }
  }

  /** Upserting records whose ids are new and distinct appends them. */
  lemma {:induction false} SetAllFresh(m: seq<Video>, s: seq<Video>)
    requires IdsUnique(m + s)
    ensures SetAll(m, s) == m + s
    decreases |s|
  {
    if s != [] {
      assert forall k :: 0 <= k < |m| ==> m[k].id != s[0].id by {
        forall k | 0 <= k < |m| ensures m[k].id != s[0].id {
          assert (m + s)[k] == m[k] && (m + s)[|m|] == s[0];
        }
      }
      assert Upsert(m, s[0]) == m + [s[0]];
      assert m + [s[0]] + s[1..] == m + s;
      SetAllFresh(m + [s[0]], s[1..]);
    }
  }

  /** `Map.prototype.delete` on the insertion-ordered entries: drop the entries with
      that id, keep the rest in order. */
  function RemoveId(s: seq<Video>, id: string): (r: seq<Video>)
    ensures |r| <= |s|
  {
    if s == [] then []
    else if s[0].id == id then RemoveId(s[1..], id)
    else [s[0]] + RemoveId(s[1..], id)
  }

  /** A record survives the deletion exactly when it was there with another id. */
  lemma {:induction false} RemoveIdMembers(s: seq<Video>, id: string, x: Video)
    ensures x in RemoveId(s, id) <==> x in s && x.id != id
    decreases |s|
  {
    if s != [] {
      RemoveIdMembers(s[1..], id, x);
      assert s == [s[0]] + s[1..];
    }
  }

  /** After the deletion no entry carries the deleted id. */
  lemma RemoveIdDropsId(s: seq<Video>, id: string)
    ensures id !in Ids(RemoveId(s, id))
  {
    var r := RemoveId(s, id);
    forall i | 0 <= i < |r| ensures r[i].id != id {
      RemoveIdMembers(s, id, r[i]);
    }
  }

  /** The visibility filter: the records that are not the sample record and have a
      non-empty video handle, in their original order. */
  function KeepVisible(s: seq<Video>): (r: seq<Video>)
    ensures |r| <= |s|
  {
    if s == [] then []
    else if Visible(s[0]) then [s[0]] + KeepVisible(s[1..])
    else KeepVisible(s[1..])
  }

  /** A record survives the filter exactly when it was there and is visible. */
  lemma {:induction false} KeepVisibleMembers(s: seq<Video>, x: Video)
    ensures x in KeepVisible(s) <==> x in s && Visible(x)
    decreases |s|
  {
    if s != [] {
      KeepVisibleMembers(s[1..], x);
      assert s == [s[0]] + s[1..];
    }
  }

  lemma {:induction false} KeepVisibleConcat(a: seq<Video>, b: seq<Video>)
    ensures KeepVisible(a + b) == KeepVisible(a) + KeepVisible(b)
    decreases |a|
  {
    if a == [] {
      assert a + b == b;
    } else {
      KeepVisibleConcat(a[1..], b);
      assert (a + b)[0] == a[0] && (a + b)[1..] == a[1..] + b;
      var tail := KeepVisible(a[1..] + b);
      if Visible(a[0]) {
        assert KeepVisible(a + b) == [a[0]] + tail;
        Associate([a[0]], KeepVisible(a[1..]), KeepVisible(b));
      } else {
        assert KeepVisible(a + b) == tail;
      }
    }
  }

  lemma Associate(a: seq<Video>, b: seq<Video>, c: seq<Video>)
    ensures a + (b + c) == a + b + c
  {
  }

  /** Filtering a list that is already visible changes nothing. */
  lemma {:induction false} KeepVisibleAllVisible(s: seq<Video>)
    requires forall i :: 0 <= i < |s| ==> Visible(s[i])
    ensures KeepVisible(s) == s
    decreases |s|
  {
    if s != [] {
      assert Visible(s[0]);
      KeepVisibleAllVisible(s[1..]);
    }
  }

  /** Filtering a list with no visible record leaves nothing. */
  lemma {:induction false} KeepVisibleNoneVisible(s: seq<Video>)
    requires forall i :: 0 <= i < |s| ==> !Visible(s[i])
    ensures KeepVisible(s) == []
    decreases |s|
  {
    if s != [] {
      assert !Visible(s[0]);
      KeepVisibleNoneVisible(s[1..]);
    }
  }

  /** Removing the sample id before the visibility filter makes no difference. */
  lemma {:induction false} KeepVisibleAfterRemoveDemo(s: seq<Video>)
    ensures KeepVisible(RemoveId(s, DemoId)) == KeepVisible(s)
    decreases |s|
  {
    if s != [] {
      KeepVisibleAfterRemoveDemo(s[1..]);
    }
  }

  /** Filters keep ids unique. */
  lemma FiltersKeepUnique(s: seq<Video>, id: string)
    requires IdsUnique(s)
    ensures IdsUnique(RemoveId(s, id)) && IdsUnique(KeepVisible(s))
  {
    RemoveIdKeepsUnique(s, id);
    KeepVisibleKeepsUnique(s);
  }

  lemma {:induction false} RemoveIdKeepsUnique(s: seq<Video>, id: string)
    requires IdsUnique(s)
    ensures IdsUnique(RemoveId(s, id))
    decreases |s|
  {
    if s != [] && s[0].id != id {
      RemoveIdKeepsUnique(s[1..], id);
      var tail := RemoveId(s[1..], id);
      assert forall x :: x in tail ==> x.id != s[0].id by {
        forall x | x in tail ensures x.id != s[0].id {
          RemoveIdMembers(s[1..], id, x);
          var j :| 0 <= j < |s[1..]| && s[1..][j] == x;
          assert s[j + 1] == x;
        }
      }
      ConsUnique(s[0], tail);
    } else if s != [] {
      RemoveIdKeepsUnique(s[1..], id);
    }
  }

  lemma {:induction false} KeepVisibleKeepsUnique(s: seq<Video>)
    requires IdsUnique(s)
    ensures IdsUnique(KeepVisible(s))
    decreases |s|
  {
    if s != [] && Visible(s[0]) {
      KeepVisibleKeepsUnique(s[1..]);
      var tail := KeepVisible(s[1..]);
      assert forall x :: x in tail ==> x.id != s[0].id by {
        forall x | x in tail ensures x.id != s[0].id {
          KeepVisibleMembers(s[1..], x);
          var j :| 0 <= j < |s[1..]| && s[1..][j] == x;
          assert s[j + 1] == x;
        }
      }
      ConsUnique(s[0], tail);
    } else if s != [] {
      KeepVisibleKeepsUnique(s[1..]);
    }
  }

  /** A record put in front of a unique list whose ids differ from its own. */
  lemma ConsUnique(v: Video, t: seq<Video>)
    requires IdsUnique(t) && forall x :: x in t ==> x.id != v.id
    ensures IdsUnique([v] + t)
  {
    var r := [v] + t;
    forall i, j | 0 <= i < j < |r| ensures r[i].id != r[j].id {
      assert r[j] == t[j - 1];
      if i > 0 {
        assert r[i] == t[i - 1];
      }
    }
  }

  /** Upserting one more record at the end of the list. */
  lemma {:induction false} SetAllSnoc(m: seq<Video>, s: seq<Video>, x: Video)
    ensures SetAll(m, s + [x]) == Upsert(SetAll(m, s), x)
    decreases |s|
  {
    if s == [] {
      assert s + [x] == [x];
      assert [x][1..] == [];
    } else {
      assert (s + [x])[1..] == s[1..] + [x];
      SetAllSnoc(Upsert(m, s[0]), s[1..], x);
    }
  }

  /** Upserting two lists in turn is upserting their concatenation. */
  lemma {:induction false} SetAllConcat(m: seq<Video>, a: seq<Video>, b: seq<Video>)
    ensures SetAll(SetAll(m, a), b) == SetAll(m, a + b)
    decreases |a|
  {
    if a == [] {
      assert a + b == b;
    } else {
      assert (a + b)[1..] == a[1..] + b;
      SetAllConcat(Upsert(m, a[0]), a[1..], b);
    }
  }
}
