/** The reconciler (`scripts/sync.js`): decode the `video_meta` posts among the fetched
    channel updates, and when there is at least one, merge them into the catalog by id
    (later entries win), drop the sample record and handle-less records, and sort by
    upload time, newest first. */
module Sync {
  import opened JsValues
  import opened Schema
  import opened Catalog

  /** One fetched update; only its `channel_post` is read. */
  datatype Update = Update(channel_post: Value)

  /** The post text of an update that passes `u.channel_post && u.channel_post.text`. */
  function PostText(u: Update): (t: Option<Value>)
    ensures t.Some? <==> Truthy(u.channel_post) && Truthy(Get(u.channel_post, "text"))
    ensures t.Some? ==> t.value == Get(u.channel_post, "text")
  {
    if Truthy(u.channel_post) && Truthy(Get(u.channel_post, "text")) then Some(Get(u.channel_post, "text"))
    else None
  }

  /** parseMetadata on a post text: JSON.parse converts its argument with `String`
      first, inside the same `try`, and the rest is parseMetadataMessage. */
  function DecodePost(text: Value, parse: string -> Option<Value>): (r: Option<Video>)
    ensures ToJsString(text).None? ==> r.None?
    ensures text.Str? ==> r == ParseMetadataMessage(text.s, parse)
  {
    match ToJsString(text)
    case None => None
    case Some(t) => ParseMetadataMessage(t, parse)
  }

  /** What one update contributes to the decoded list. */
  function Decoded(u: Update, parse: string -> Option<Value>): Option<Video> {
    match PostText(u)
    case None => None
    case Some(text) => DecodePost(text, parse)
  }

  /** The filter / map / filter chain over the updates, in update order. */
  function DecodeUpdates(us: seq<Update>, parse: string -> Option<Value>): (r: seq<Video>)
    ensures |r| <= |us|
  {
    if us == [] then []
    else
      match Decoded(us[0], parse)
      case None => DecodeUpdates(us[1..], parse)
      case Some(v) => [v] + DecodeUpdates(us[1..], parse)
  }

  /** Decoding keeps the order of the updates: it distributes over concatenation. */
  lemma {:induction false} DecodeUpdatesConcat(a: seq<Update>, b: seq<Update>, parse: string -> Option<Value>)
    ensures DecodeUpdates(a + b, parse) == DecodeUpdates(a, parse) + DecodeUpdates(b, parse)
    decreases |a|
  {
    if a == [] {
      assert a + b == b;
    } else {
      assert (a + b)[1..] == a[1..] + b;
      DecodeUpdatesConcat(a[1..], b, parse);
    }
  }

  /** A record is decoded exactly when some update carries a post with text that
      decodes to it; updates without a post or without text contribute nothing. */
  lemma {:induction false} DecodeUpdatesMembership(us: seq<Update>, parse: string -> Option<Value>, x: Video)
    ensures x in DecodeUpdates(us, parse) <==>
      exists i :: 0 <= i < |us| && PostText(us[i]).Some? && DecodePost(PostText(us[i]).value, parse) == Some(x)
    decreases |us|
  {
    if us != [] {
      DecodeUpdatesMembership(us[1..], parse, x);
      if x in DecodeUpdates(us[1..], parse) {
        var i :| 0 <= i < |us[1..]| && PostText(us[1..][i]).Some? && DecodePost(PostText(us[1..][i]).value, parse) == Some(x);
        assert us[i + 1] == us[1..][i];
      }
      if exists i :: 0 <= i < |us| && PostText(us[i]).Some? && DecodePost(PostText(us[i]).value, parse) == Some(x) {
        var i :| 0 <= i < |us| && PostText(us[i]).Some? && DecodePost(PostText(us[i]).value, parse) == Some(x);
        if i > 0 {
          assert us[1..][i - 1] == us[i];
        }
      }
    }
  }

  // ---------------------------------------------------------------------------
  // Sorting by upload time, newest first

  predicate SortedDesc(s: seq<Video>) {
    forall i, j :: 0 <= i < j < |s| ==> s[i].uploaded_at >= s[j].uploaded_at
  }

  /** Insert `x` into a list that follows it in the input: before the first record
      that is not newer, so that records with equal upload time keep their order. */
  function Insert(x: Video, t: seq<Video>): seq<Video> {
    if t == [] then [x]
    else if t[0].uploaded_at <= x.uploaded_at then [x] + t
    else [t[0]] + Insert(x, t[1..])
  }

  /** `sort((a, b) => b.uploaded_at - a.uploaded_at)`: the stable sort, newest first. */
  function SortByUploadedDesc(s: seq<Video>): seq<Video> {
    if s == [] then [] else Insert(s[0], SortByUploadedDesc(s[1..]))
  }

  lemma {:induction false} InsertPermutation(x: Video, t: seq<Video>)
    ensures multiset(Insert(x, t)) == multiset(t) + multiset{x}
    ensures |Insert(x, t)| == |t| + 1
    decreases |t|
  {
    if t != [] && t[0].uploaded_at > x.uploaded_at {
      InsertPermutation(x, t[1..]);
      assert t == [t[0]] + t[1..];
    }
  }

  /** The first record after an insertion is the inserted one or the old first one. */
  lemma InsertHead(x: Video, t: seq<Video>)
    ensures |Insert(x, t)| >= 1
    ensures Insert(x, t)[0] == x || (t != [] && Insert(x, t)[0] == t[0])
  {
  }

  /** A record no older than the first of a sorted list can be put in front of it. */
  lemma ConsSorted(y: Video, r: seq<Video>)
    requires SortedDesc(r)
    requires r != [] ==> r[0].uploaded_at <= y.uploaded_at
    ensures SortedDesc([y] + r)
  {
    var c := [y] + r;
    forall i, j | 0 <= i < j < |c| ensures c[i].uploaded_at >= c[j].uploaded_at {
      assert c[j] == r[j - 1];
      if i > 0 {
        assert c[i] == r[i - 1];
      } else if j > 1 {
        assert r[0].uploaded_at >= r[j - 1].uploaded_at;
      }
    }
  }

  lemma {:induction false} InsertSorted(x: Video, t: seq<Video>)
    requires SortedDesc(t)
    ensures SortedDesc(Insert(x, t))
    decreases |t|
  {
    if t == [] {
      ConsSorted(x, []);
      assert Insert(x, t) == [x] + [];
    } else if t[0].uploaded_at <= x.uploaded_at {
      ConsSorted(x, t);
    } else {
      var u := t[1..];
      assert SortedDesc(u) by {
        forall i, j | 0 <= i < j < |u| ensures u[i].uploaded_at >= u[j].uploaded_at {
          assert u[i] == t[i + 1] && u[j] == t[j + 1];
        }
      }
      InsertSorted(x, u);
      InsertHead(x, u);
      if u != [] {
        assert u[0] == t[1];
      }
      ConsSorted(t[0], Insert(x, u));
    }
  }

  /** The sort gives a permutation of its input. */
  lemma {:induction false} SortPermutation(s: seq<Video>)
    ensures multiset(SortByUploadedDesc(s)) == multiset(s)
    ensures |SortByUploadedDesc(s)| == |s|
    decreases |s|
  {
    if s != [] {
      SortPermutation(s[1..]);
      InsertPermutation(s[0], SortByUploadedDesc(s[1..]));
      assert multiset(s) == multiset(s[1..]) + multiset{s[0]} by {
        assert s == [s[0]] + s[1..];
      }
    }
  }

  /** The sort outputs records in non-increasing upload time. */
  lemma {:induction false} SortSorted(s: seq<Video>)
    ensures SortedDesc(SortByUploadedDesc(s))
    decreases |s|
  {
    if s != [] {
      SortSorted(s[1..]);
      InsertSorted(s[0], SortByUploadedDesc(s[1..]));
    }
  }

  /** The sort gives a permutation of its input in non-increasing upload time. */
  lemma SortProperties(s: seq<Video>)
    ensures SortedDesc(SortByUploadedDesc(s))
    ensures multiset(SortByUploadedDesc(s)) == multiset(s)
    ensures |SortByUploadedDesc(s)| == |s|
  {
    SortPermutation(s);
    SortSorted(s);
  }

  /** The records of a list uploaded at time `t`, in list order. */
  function AtTime(s: seq<Video>, t: int): (r: seq<Video>)
    ensures |r| <= |s|
  {
    if s == [] then []
    else if s[0].uploaded_at == t then [s[0]] + AtTime(s[1..], t)
    else AtTime(s[1..], t)
  }

  /** The records uploaded at one time keep their order through an insertion: the
      inserted record comes before the others with its time. */
  lemma {:induction false} InsertStable(x: Video, u: seq<Video>, t: int)
    ensures AtTime(Insert(x, u), t) == (if x.uploaded_at == t then [x] else []) + AtTime(u, t)
    decreases |u|
  {
    var head := if x.uploaded_at == t then [x] else [];
    if u == [] {
      assert [x][1..] == [];
    } else if u[0].uploaded_at <= x.uploaded_at {
      assert ([x] + u)[0] == x && ([x] + u)[1..] == u;
    } else {
      var w := u[1..];
      InsertStable(x, w, t);
      var c := [u[0]] + Insert(x, w);
      assert c[0] == u[0] && c[1..] == Insert(x, w);
      if u[0].uploaded_at == t {
        assert head == [];
        assert AtTime(u, t) == [u[0]] + AtTime(w, t);
      } else {
        assert AtTime(u, t) == AtTime(w, t);
      }
    }
  }

  /** The sort is stable: for every upload time, the records with that time come out
      in their input order. */
  lemma {:induction false} SortStable(s: seq<Video>, t: int)
    ensures AtTime(SortByUploadedDesc(s), t) == AtTime(s, t)
    decreases |s|
  {
    if s != [] {
      SortStable(s[1..], t);
      InsertStable(s[0], SortByUploadedDesc(s[1..]), t);
      if s[0].uploaded_at != t {
        assert [] + AtTime(s[1..], t) == AtTime(s[1..], t);
      }
    }
  }

  /** A list already in order is left as it is. */
  lemma {:induction false} SortKeepsSorted(s: seq<Video>)
    requires SortedDesc(s)
    ensures SortByUploadedDesc(s) == s
    decreases |s|
  {
    if s != [] {
      SortKeepsSorted(s[1..]);
      if |s| > 1 {
        assert s[1..][0] == s[1];
      }
    }
  }

  /** A permutation of a list with unique ids has unique ids. */
  lemma PermutationKeepsUnique(r: seq<Video>, s: seq<Video>)
    requires multiset(r) == multiset(s)
    requires IdsUnique(s)
    ensures IdsUnique(r)
  {
    forall i, j | 0 <= i < j < |r| ensures r[i].id != r[j].id {
      if r[i].id == r[j].id {
        assert r[i] in multiset(s) && r[j] in multiset(s);
        var a := IndexOf(s, r[i]);
        var b := IndexOf(s, r[j]);
        assert a == b;
        TwoOccurrences(r, i, j);
        SingleOccurrence(s, a);
        assert false;
      }
    }
  }

  /** A record found at two positions occurs at least twice. */
  lemma TwoOccurrences(r: seq<Video>, i: int, j: int)
    requires 0 <= i < j < |r| && r[i] == r[j]
    ensures multiset(r)[r[i]] >= 2
  {
    assert r == r[..i] + [r[i]] + (r[i + 1..j] + [r[j]] + r[j + 1..]);
    assert r[i + 1..] == r[i + 1..j] + [r[j]] + r[j + 1..];
  }

  /** A position of a record in a list that holds it. */
  function IndexOf(s: seq<Video>, x: Video): (i: int)
    requires x in s
    ensures 0 <= i < |s| && s[i] == x
  {
    if s[0] == x then 0 else 1 + IndexOf(s[1..], x)
  }

  /** In a list with unique ids every record occurs once. */
  lemma {:induction false} SingleOccurrence(s: seq<Video>, a: int)
    requires IdsUnique(s) && 0 <= a < |s|
    ensures multiset(s)[s[a]] == 1
    decreases |s|
  {
    assert s == [s[0]] + s[1..];
    if a == 0 {
      assert s[0] !in s[1..];
      assert multiset(s[1..])[s[0]] == 0;
    } else {
      SingleOccurrence(s[1..], a - 1);
      assert s[1..][a - 1] == s[a];
    }
  }

  // ---------------------------------------------------------------------------
  // The merge

  /** The merge, filter and sort (lines 123-132) on the existing records and the decoded
      ones: two rounds of `set` into an empty id map, `delete('demo')`, the `file_id`
      filter and the sort. */
  function Merge(existing: seq<Video>, decoded: seq<Video>): seq<Video> {
    SortByUploadedDesc(KeepVisible(RemoveId(SetAll(SetAll([], existing), decoded), DemoId)))
  }

  /** How a run of the reconciler ends: it writes the merged list, finds no metadata and
      writes nothing, or fails (exit status 1) without writing. */
  datatype SyncExit = Written(videos: seq<Video>) | NoMetadata | SyncFailed

  /** The records a run starts from: none when the catalog file does not exist. */
  function Existing(file: CatalogFile): seq<Video> {
    if file.Records? then file.videos else []
  }

  /** One run of `main` from the fetch on. `reply` is what getUpdates returned: the
      updates, or the description of a reply with `ok: false`, which `fetchUpdates`
      throws. Reading the catalog file with `JSON.parse` throws on an unreadable file,
      on the path with metadata and on the path without (where it only counts the
      current records). Every throw reaches the `catch`, which exits without writing. */
  function SyncRun(file: CatalogFile, reply: Result<seq<Update>, string>, parse: string -> Option<Value>): (r: SyncExit)
    ensures reply.Err? ==> r == SyncFailed
    ensures file.Unreadable? ==> r == SyncFailed
    ensures r == NoMetadata <==> reply.Ok? && !file.Unreadable? && DecodeUpdates(reply.value, parse) == []
    ensures r.Written? <==> reply.Ok? && !file.Unreadable? && DecodeUpdates(reply.value, parse) != []
    ensures r.Written? ==> r.videos == Merge(Existing(file), DecodeUpdates(reply.value, parse))
  {
    match reply
    case Err(_) => SyncFailed
    case Ok(us) =>
      if file.Unreadable? then SyncFailed
      else
        var decoded := DecodeUpdates(us, parse);
        if decoded == [] then NoMetadata else Written(Merge(Existing(file), decoded))
  }

  /** An insertion-ordered dictionary from id to record, as `Map` keeps it: `set` on a
      present key replaces the value where it stands, on a new key appends. */
  class IdMap {
    var entries: seq<Video>

    ghost predicate Valid()
      reads this
    {
      IdsUnique(entries)
    }

    constructor ()
      ensures entries == [] && Valid()
    {
      entries := [];
    }

    method Set(v: Video)
      requires Valid()
      modifies this
      ensures entries == Upsert(old(entries), v)
      ensures Valid()
      ensures LastMap(entries) == LastMap(old(entries))[v.id := v]
    {
      UpsertShape(entries, v);
      UpsertLastMap(entries, v);
      entries := Upsert(entries, v);
    }

    /** `forEach((v) => videoMap.set(v.id, v))`: set each record in turn. */
    method SetEach(vs: seq<Video>)
      requires Valid()
      modifies this
      ensures entries == SetAll(old(entries), vs)
      ensures Valid()
    {
      ghost var start := entries;
      var i := 0;
      while i < |vs|
        invariant 0 <= i <= |vs|
        invariant Valid()
        invariant entries == SetAll(start, vs[..i])
      {
        SetAllStep(start, vs, i);
        Set(vs[i]);
        i := i + 1;
      }
      assert vs[..i] == vs;
    }

    method Delete(id: string)
      requires Valid()
      modifies this
      ensures entries == RemoveId(old(entries), id)
      ensures Valid()
      ensures id !in Ids(entries)
    {
      FiltersKeepUnique(entries, id);
      RemoveIdDropsId(entries, id);
      entries := RemoveId(entries, id);
    }
  }

  /** Upserting the records of a list up to one more position. */
  lemma SetAllStep(m: seq<Video>, vs: seq<Video>, i: int)
    requires 0 <= i < |vs|
    ensures SetAll(m, vs[..i + 1]) == Upsert(SetAll(m, vs[..i]), vs[i])
  {
    SetAllSnoc(m, vs[..i], vs[i]);
    assert vs[..i + 1] == vs[..i] + [vs[i]];
  }

  /** The reconciler's merge as the source runs it: return None when nothing decoded,
      else fill an IdMap from the existing then the decoded records, delete the sample
      id, then filter and sort its values. */
  method Reconcile(existing: seq<Video>, decoded: seq<Video>) returns (written: Option<seq<Video>>)
    ensures decoded == [] ==> written == None
    ensures decoded != [] ==> written == Some(Merge(existing, decoded))
  {
    if |decoded| == 0 {
      return None;
    }
    var videoMap := new IdMap();
    videoMap.SetEach(existing);
    videoMap.SetEach(decoded);
    videoMap.Delete(DemoId);
    written := Some(SortByUploadedDesc(KeepVisible(videoMap.entries)));
  }

  // ---------------------------------------------------------------------------
  // Properties of the merge

  /** The id map after both rounds of `set`, as a dictionary, is the dictionary of the
      existing records followed by the decoded ones. */
  lemma MergedEntries(existing: seq<Video>, decoded: seq<Video>)
    ensures var m := SetAll(SetAll([], existing), decoded);
      IdsUnique(m) && LastMap(m) == LastMap(existing + decoded)
  {
    SetAllConcat([], existing, decoded);
    SetAllShape([], existing + decoded);
    SetAllLastMap([], existing + decoded);
    assert [] + (existing + decoded) == existing + decoded;
  }

  /** A record is written exactly when it is visible and is the last record observed
      for its id, the existing records coming before the decoded ones. */
  lemma MergeMembership(existing: seq<Video>, decoded: seq<Video>, x: Video)
    ensures x in Merge(existing, decoded) <==>
      Visible(x) && x.id in LastMap(existing + decoded) && LastMap(existing + decoded)[x.id] == x
  {
    var m := SetAll(SetAll([], existing), decoded);
    MergedEntries(existing, decoded);
    var f := KeepVisible(RemoveId(m, DemoId));
    SortProperties(f);
    assert x in Merge(existing, decoded) <==> x in multiset(f);
    KeepVisibleMembers(RemoveId(m, DemoId), x);
    RemoveIdMembers(m, DemoId, x);
    UniqueMembership(m, x);
  }

  /** The written list is sorted newest first, has unique ids, never holds the sample
      id, and every record in it has a non-empty video handle. */
  lemma MergeShape(existing: seq<Video>, decoded: seq<Video>)
    ensures var out := Merge(existing, decoded);
      && SortedDesc(out)
      && IdsUnique(out)
      && (forall i :: 0 <= i < |out| ==> out[i].id != DemoId && out[i].file_id != "")
  {
    var m := SetAll(SetAll([], existing), decoded);
    MergedEntries(existing, decoded);
    FiltersKeepUnique(m, DemoId);
    var cleared := RemoveId(m, DemoId);
    FiltersKeepUnique(cleared, DemoId);
    var f := KeepVisible(cleared);
    SortProperties(f);
    PermutationKeepsUnique(SortByUploadedDesc(f), f);
    var out := Merge(existing, decoded);
    forall i | 0 <= i < |out| ensures out[i].id != DemoId && out[i].file_id != "" {
      assert out[i] in multiset(f);
      KeepVisibleMembers(cleared, out[i]);
    }
  }

  /** Last writer wins, and wins whole: when a decoded record is the last one observed
      for its id, the output holds it unchanged if it is visible, and holds nothing
      else with that id either way; an invisible last record drops the id. */
  lemma DecodedRecordWins(existing: seq<Video>, decoded: seq<Video>, i: int)
    requires 0 <= i < |decoded|
    requires forall j :: i < j < |decoded| ==> decoded[j].id != decoded[i].id
    ensures Visible(decoded[i]) ==> decoded[i] in Merge(existing, decoded)
    ensures forall x :: x in Merge(existing, decoded) && x.id == decoded[i].id ==> x == decoded[i]
  {
    var d := decoded[i];
    var all := existing + decoded;
    assert all[|existing| + i] == d;
    LastMapIsLast(all, |existing| + i);
    MergeMembership(existing, decoded, d);
    forall x | x in Merge(existing, decoded) && x.id == d.id ensures x == d {
      MergeMembership(existing, decoded, x);
    }
  }

  /** Local entries are not lost: an existing visible record that is the last of its id
      among the existing records, and whose id no decoded record carries, is written. */
  lemma ExistingRecordKept(existing: seq<Video>, decoded: seq<Video>, i: int)
    requires 0 <= i < |existing| && Visible(existing[i])
    requires forall j :: i < j < |existing| ==> existing[j].id != existing[i].id
    requires forall j :: 0 <= j < |decoded| ==> decoded[j].id != existing[i].id
    ensures existing[i] in Merge(existing, decoded)
  {
    var all := existing + decoded;
    forall j | i < j < |all| ensures all[j].id != existing[i].id {
      if j >= |existing| {
        assert all[j] == decoded[j - |existing|];
      }
    }
    LastMapIsLast(all, i);
    MergeMembership(existing, decoded, existing[i]);
  }

  // ---------------------------------------------------------------------------
  // Re-running with the same messages

  /** Replaying records over a list with unique ids leaves its entries in place when
      every replayed id that the list holds finally maps to the entry already there. */
  lemma ReplayPrefix(out: seq<Video>, decoded: seq<Video>)
    requires IdsUnique(out)
    requires forall j :: 0 <= j < |out| && out[j].id in LastMap(decoded) ==> LastMap(decoded)[out[j].id] == out[j]
    ensures var r := SetAll(out, decoded); |r| >= |out| && r[..|out|] == out
  {
    var r := SetAll(out, decoded);
    SetAllShape(out, decoded);
    SetAllLastMap(out, decoded);
    LastMapConcat(out, decoded);
    UniqueLastMap(r);
    UniqueLastMap(out);
    forall j | 0 <= j < |out| ensures r[j] == out[j] {
      assert r[j].id == out[j].id;
    }
  }

  /** Replaying records over a list with unique ids appends only invisible entries when
      every replayed id the list lacks finally maps to an invisible record. */
  lemma ReplayTail(out: seq<Video>, decoded: seq<Video>)
    requires IdsUnique(out)
    requires forall k :: k in LastMap(decoded) && k !in Ids(out) ==> !Visible(LastMap(decoded)[k])
    ensures var r := SetAll(out, decoded); forall p :: |out| <= p < |r| ==> !Visible(r[p])
  {
    var r := SetAll(out, decoded);
    SetAllShape(out, decoded);
    SetAllLastMap(out, decoded);
    LastMapConcat(out, decoded);
    UniqueLastMap(r);
    LastMapKeys(out);
    forall p | |out| <= p < |r| ensures !Visible(r[p]) {
      var k := r[p].id;
      assert k !in Ids(out);
      assert k in LastMap(out + decoded);
    }
  }

  /** The key a dictionary entry is filed under is the id of its record. */
  lemma LastMapKeyIsId(s: seq<Video>, k: string)
    requires k in LastMap(s)
    ensures LastMap(s)[k].id == k
  {
    LastMapSource(s, k);
  }

  /** The merge output meets the condition of ReplayPrefix. */
  lemma OutputIsFinal(existing: seq<Video>, decoded: seq<Video>)
    ensures var out := Merge(existing, decoded);
      forall j :: 0 <= j < |out| && out[j].id in LastMap(decoded) ==> LastMap(decoded)[out[j].id] == out[j]
  {
    var out := Merge(existing, decoded);
    LastMapConcat(existing, decoded);
    forall j | 0 <= j < |out| && out[j].id in LastMap(decoded) ensures LastMap(decoded)[out[j].id] == out[j] {
      MergeMembership(existing, decoded, out[j]);
    }
  }

  /** The merge output meets the condition of ReplayTail. */
  lemma OutputLacksOnlyInvisible(existing: seq<Video>, decoded: seq<Video>)
    ensures var out := Merge(existing, decoded);
      forall k :: k in LastMap(decoded) && k !in Ids(out) ==> !Visible(LastMap(decoded)[k])
  {
    var out := Merge(existing, decoded);
    LastMapConcat(existing, decoded);
    forall k | k in LastMap(decoded) && k !in Ids(out) ensures !Visible(LastMap(decoded)[k]) {
      var y := LastMap(decoded)[k];
      LastMapKeyIsId(decoded, k);
      forall j | 0 <= j < |out| ensures out[j] != y {
        assert out[j].id in Ids(out);
      }
      MergeMembership(existing, decoded, y);
    }
  }

  /** Filtering a list made of all-visible entries followed by invisible ones gives
      the first part. */
  lemma FilterReplay(out: seq<Video>, r: seq<Video>)
    requires |r| >= |out| && r[..|out|] == out
    requires forall i :: 0 <= i < |out| ==> Visible(out[i])
    requires forall p :: |out| <= p < |r| ==> !Visible(r[p])
    ensures KeepVisible(RemoveId(r, DemoId)) == out
  {
    var tail := r[|out|..];
    assert r == out + tail;
    KeepVisibleAfterRemoveDemo(r);
    KeepVisibleConcat(out, tail);
    KeepVisibleAllVisible(out);
    forall p | 0 <= p < |tail| ensures !Visible(tail[p]) {
      assert tail[p] == r[|out| + p];
    }
    KeepVisibleNoneVisible(tail);
    assert out + [] == out;
  }

  /** Merging the same decoded records into a previous output gives that output back. */
  lemma MergeIdempotent(existing: seq<Video>, decoded: seq<Video>)
    ensures Merge(Merge(existing, decoded), decoded) == Merge(existing, decoded)
  {
    var out := Merge(existing, decoded);
    MergeShape(existing, decoded);
    SetAllFresh([], out);
    assert [] + out == out;
    OutputIsFinal(existing, decoded);
    OutputLacksOnlyInvisible(existing, decoded);
    ReplayPrefix(out, decoded);
    ReplayTail(out, decoded);
    var r := SetAll(out, decoded);
    assert forall i :: 0 <= i < |out| ==> Visible(out[i]);
    FilterReplay(out, r);
    SortKeepsSorted(out);
  }

  /** Re-running the reconciler with the same updates on its own output writes the
      same list again. */
  lemma SyncIdempotent(file: CatalogFile, reply: Result<seq<Update>, string>, parse: string -> Option<Value>)
    requires SyncRun(file, reply, parse).Written?
    ensures SyncRun(Records(SyncRun(file, reply, parse).videos), reply, parse) == SyncRun(file, reply, parse)
  {
    MergeIdempotent(Existing(file), DecodeUpdates(reply.value, parse));
  }
}
