/** The upload page's queue (`app/upload/page.js`): accepting dropped or chosen files,
    removing one by name, the title a queued file starts with, and when its upload
    button is disabled. */
module UploadPage {

  /** A chosen file: its name and its MIME type. */
  datatype File = File(name: string, mime: string)

  predicate IsVideo(f: File) {
    |f.mime| >= 6 && f.mime[..6] == "video/"
  }

  /** The files of a selection whose type starts with `video/`, in order. */
  function VideoFiles(incoming: seq<File>): (r: seq<File>)
    ensures forall f :: f in r <==> f in incoming && IsVideo(f)
  {
    if incoming == [] then []
    else if IsVideo(incoming[0]) then [incoming[0]] + VideoFiles(incoming[1..])
    else VideoFiles(incoming[1..])
  }

  predicate NameIn(name: string, files: seq<File>) {
    exists p :: p in files && p.name == name
  }

  /** The files whose name is not yet in the queue, in order. */
  function NotQueued(candidates: seq<File>, queue: seq<File>): (r: seq<File>)
    ensures forall f :: f in r <==> f in candidates && !NameIn(f.name, queue)
  {
    if candidates == [] then []
    else if NameIn(candidates[0].name, queue) then NotQueued(candidates[1..], queue)
    else [candidates[0]] + NotQueued(candidates[1..], queue)
  }

  /** The outcome of handleFiles: the new queue, and whether the page alerted that
      only video files are accepted. */
  datatype Selection = Selection(queue: seq<File>, alerted: bool)

  /** handleFiles: with no video file in the selection the page alerts and the queue is
      unchanged; otherwise the video files whose names are not queued yet are appended. */
  function HandleFiles(prev: seq<File>, incoming: seq<File>): (r: Selection)
    ensures r.alerted <==> (forall f :: f in incoming ==> !IsVideo(f))
    ensures r.alerted ==> r.queue == prev
    ensures |r.queue| >= |prev| && r.queue[..|prev|] == prev
    ensures forall f :: f in r.queue[|prev|..] <==> f in incoming && IsVideo(f) && !NameIn(f.name, prev)
  {
    var videos := VideoFiles(incoming);
    if videos == [] then Selection(prev, true)
    else
      assert videos[0] in incoming;
      var r := prev + NotQueued(videos, prev);
      assert r[..|prev|] == prev && r[|prev|..] == NotQueued(videos, prev);
      Selection(r, false)
  }

  /** Only the queue is consulted: two files of one selection with the same name, not
      yet queued, are both added. */
  lemma SameNameInOneSelection()
    ensures var f := File("clip.mp4", "video/mp4");
      HandleFiles([], [f, f]).queue == [f, f]
  {
    var f := File("clip.mp4", "video/mp4");
    assert IsVideo(f) by {
      assert f.mime[..6] == "video/";
    }
    assert !NameIn(f.name, []);
    assert [f, f][1..] == [f] && [f][1..] == [];
    assert VideoFiles([f]) == [f];
    assert VideoFiles([f, f]) == [f, f];
    assert NotQueued([f], []) == [f];
    assert NotQueued([f, f], []) == [f, f];
  }

  /** A file whose name is already queued is never added again. */
  lemma QueuedNameNotAddedAgain(prev: seq<File>, incoming: seq<File>, name: string)
    requires NameIn(name, prev)
    ensures forall f :: f in HandleFiles(prev, incoming).queue[|prev|..] ==> f.name != name
  {
  }

  /** The files a selection adds behind the previous queue. */
  function Added(prev: seq<File>, incoming: seq<File>): (r: seq<File>)
    ensures HandleFiles(prev, incoming).queue == prev + r
  {
    HandleFiles(prev, incoming).queue[|prev|..]
  }

  /** The video filter keeps the selection order: it distributes over concatenation. */
  lemma {:induction false} VideoFilesConcat(a: seq<File>, b: seq<File>)
    ensures VideoFiles(a + b) == VideoFiles(a) + VideoFiles(b)
    decreases |a|
  {
    if a == [] {
      assert a + b == b;
    } else {
      assert (a + b)[0] == a[0] && (a + b)[1..] == a[1..] + b;
      VideoFilesConcat(a[1..], b);
    }
  }

  /** The queued-name filter keeps the selection order: it distributes over
      concatenation. */
  lemma {:induction false} NotQueuedConcat(a: seq<File>, b: seq<File>, queue: seq<File>)
    ensures NotQueued(a + b, queue) == NotQueued(a, queue) + NotQueued(b, queue)
    decreases |a|
  {
    if a == [] {
      assert a + b == b;
    } else {
      assert (a + b)[0] == a[0] && (a + b)[1..] == a[1..] + b;
      NotQueuedConcat(a[1..], b, queue);
    }
  }

  /** What a selection adds is what the video filter keeps of it and the queued-name
      filter then keeps, whether or not the page alerted. */
  lemma AddedIsFiltered(prev: seq<File>, incoming: seq<File>)
    ensures Added(prev, incoming) == NotQueued(VideoFiles(incoming), prev)
  {
    var r := HandleFiles(prev, incoming).queue;
    if VideoFiles(incoming) == [] {
      assert r[|prev|..] == [];
    } else {
      assert r == prev + NotQueued(VideoFiles(incoming), prev);
    }
  }

  /** One file is added, once, exactly when it is a video whose name is not queued. */
  lemma AddedSingle(prev: seq<File>, f: File)
    ensures Added(prev, [f]) == if IsVideo(f) && !NameIn(f.name, prev) then [f] else []
  {
    AddedIsFiltered(prev, [f]);
    assert [f][1..] == [];
  }

  /** Files are added in selection order: the files a concatenated selection adds are
      those its first part adds followed by those its second part adds. Together with
      AddedSingle this fixes the added files exactly. */
  lemma AddedConcat(prev: seq<File>, a: seq<File>, b: seq<File>)
    ensures Added(prev, a + b) == Added(prev, a) + Added(prev, b)
  {
    AddedIsFiltered(prev, a + b);
    AddedIsFiltered(prev, a);
    AddedIsFiltered(prev, b);
    VideoFilesConcat(a, b);
    NotQueuedConcat(VideoFiles(a), VideoFiles(b), prev);
  }

  /** A selection of new video files is appended as it is, in order, each file once. */
  lemma {:induction false} AddedAllNew(prev: seq<File>, incoming: seq<File>)
    requires forall i :: 0 <= i < |incoming| ==> IsVideo(incoming[i]) && !NameIn(incoming[i].name, prev)
    ensures Added(prev, incoming) == incoming
    decreases |incoming|
  {
    if incoming == [] {
      AddedIsFiltered(prev, incoming);
    } else {
      var f, rest := incoming[0], incoming[1..];
      assert incoming == [f] + rest;
      AddedConcat(prev, [f], rest);
      AddedSingle(prev, f);
      AddedAllNew(prev, rest);
    }
  }

  /** handleRemove: every file with that name is dropped, the others keep their order. */
  function HandleRemove(files: seq<File>, name: string): (r: seq<File>)
    ensures forall f :: f in r <==> f in files && f.name != name
    ensures |r| <= |files|
  {
    if files == [] then []
    else if files[0].name == name then HandleRemove(files[1..], name)
    else [files[0]] + HandleRemove(files[1..], name)
  }

  /** Removing keeps the order: it distributes over concatenation. */
  lemma {:induction false} HandleRemoveKeepsOrder(a: seq<File>, b: seq<File>, name: string)
    ensures HandleRemove(a + b, name) == HandleRemove(a, name) + HandleRemove(b, name)
    decreases |a|
  {
    if a == [] {
      assert a + b == b;
    } else {
      assert (a + b)[1..] == a[1..] + b;
      HandleRemoveKeepsOrder(a[1..], b, name);
    }
  }

  // ---------------------------------------------------------------------------
  // The default title: `name.replace(/\.[^/.]+$/, '')`

  predicate ExtChar(c: char) {
    c != '/' && c != '.'
  }

  /** The length of the longest suffix made of characters that are neither `/` nor `.`. */
  function TrailingRun(s: string): (n: nat)
    ensures n <= |s|
    ensures forall i :: |s| - n <= i < |s| ==> ExtChar(s[i])
    ensures n < |s| ==> !ExtChar(s[|s| - n - 1])
    decreases |s|
  {
    if s == [] || !ExtChar(s[|s| - 1]) then 0 else 1 + TrailingRun(s[..|s| - 1])
  }

  /** The default title: the name without its final `.ext`, where the extension is
      non-empty and holds neither `/` nor `.`; any other name is kept. */
  function DefaultTitle(name: string): (title: string)
    ensures |title| <= |name| && title == name[..|title|]
  {
    var n := TrailingRun(name);
    if n >= 1 && n < |name| && name[|name| - n - 1] == '.' then name[..|name| - n - 1] else name
  }

  predicate IsExtension(ext: string) {
    ext != [] && forall i :: 0 <= i < |ext| ==> ExtChar(ext[i])
  }

  /** The title strips exactly one final extension: a name of the form
      `title + "." + ext` gives `title`, and a name with no such suffix is unchanged. */
  lemma DefaultTitleStripsExtension(name: string)
    ensures (exists title, ext :: name == title + "." + ext && IsExtension(ext)) ==>
      exists ext :: name == DefaultTitle(name) + "." + ext && IsExtension(ext)
    ensures !(exists title, ext :: name == title + "." + ext && IsExtension(ext)) ==> DefaultTitle(name) == name
  {
    var n := TrailingRun(name);
    if n >= 1 && n < |name| && name[|name| - n - 1] == '.' {
      var ext := name[|name| - n..];
      assert name == name[..|name| - n - 1] + "." + ext;
      forall i | 0 <= i < |ext| ensures ExtChar(ext[i]) {
        assert ext[i] == name[|name| - n + i];
      }
      var title := name[..|name| - n - 1];
      assert name == title + "." + ext && IsExtension(ext);
    } else if exists title, ext :: name == title + "." + ext && IsExtension(ext) {
      var title, ext :| name == title + "." + ext && IsExtension(ext);
      ExtensionWithinRun(name, title, ext);
    }
  }

  /** The extension of such a decomposition lies in the trailing run, and the dot just
      before it ends the run. */
  lemma ExtensionWithinRun(name: string, title: string, ext: string)
    requires name == title + "." + ext && IsExtension(ext)
    ensures TrailingRun(name) == |ext|
  {
    var n := TrailingRun(name);
    assert name[|title|] == '.';
    forall i | |name| - |ext| <= i < |name| ensures ExtChar(name[i]) {
      assert name[i] == ext[i - |name| + |ext|];
    }
  }

  /** A name made of a title, a dot and an extension starts with that title. */
  lemma DefaultTitleOf(title: string, ext: string)
    requires IsExtension(ext)
    ensures DefaultTitle(title + "." + ext) == title
  {
    var name := title + "." + ext;
    ExtensionWithinRun(name, title, ext);
    assert name[|name| - |ext| - 1] == '.';
    assert name[..|name| - |ext| - 1] == title;
  }

  /** The title a file with that name starts from. */
  lemma DefaultTitleExamples()
    ensures DefaultTitle("holiday.mp4") == "holiday"
    ensures DefaultTitle("archive.tar.gz") == "archive.tar"
    ensures DefaultTitle("noext") == "noext"
    ensures DefaultTitle(".mp4") == ""
  {
    assert DefaultTitle("holiday.mp4") == "holiday" by {
      assert IsExtension("mp4");
      assert "holiday.mp4" == "holiday" + "." + "mp4";
      DefaultTitleOf("holiday", "mp4");
    }
    assert DefaultTitle("archive.tar.gz") == "archive.tar" by {
      assert IsExtension("gz");
      assert "archive.tar.gz" == "archive.tar" + "." + "gz";
      DefaultTitleOf("archive.tar", "gz");
    }
    assert DefaultTitle(".mp4") == "" by {
      assert IsExtension("mp4");
      assert ".mp4" == "" + "." + "mp4";
      DefaultTitleOf("", "mp4");
    }
    NoExtensionKept();
  }

  /** A name with no dot keeps its name as the title. */
  lemma NoExtensionKept()
    ensures DefaultTitle("noext") == "noext"
  {
    assert TrailingRun("noext") == 5;
  }

  /** `disabled={uploading || !metadata.title}`. */
  predicate UploadDisabled(uploading: bool, title: string) {
    uploading || title == ""
  }

  /** A queued file's upload button starts disabled exactly when its name is empty or
      is only an extension (a dot and one or more characters other than `.` and `/`). */
  lemma StartsDisabledIff(name: string)
    ensures UploadDisabled(false, DefaultTitle(name)) <==>
      name == "" || exists ext :: name == "." + ext && IsExtension(ext)
  {
    if exists ext :: name == "." + ext && IsExtension(ext) {
      var ext :| name == "." + ext && IsExtension(ext);
      assert name == "" + "." + ext;
      DefaultTitleOf("", ext);
    } else if name != "" && DefaultTitle(name) == "" {
      var n := TrailingRun(name);
      assert n >= 1 && n < |name| && name[|name| - n - 1] == '.';
      var ext := name[1..];
      assert name == "." + ext;
      forall i | 0 <= i < |ext| ensures ExtChar(ext[i]) {
        assert ext[i] == name[i + 1];
      }
      assert IsExtension(ext);
      assert false;
    }
  }

  /** A file named only by an extension starts with an empty title, so its upload
      button starts disabled. */
  lemma BareExtensionStartsDisabled()
    ensures UploadDisabled(false, DefaultTitle(".mp4"))
  {
    DefaultTitleExamples();
  }
}
