/** The list endpoint (`GET /api/videos`): the stored catalog, without the sample
    record and handle-less records, projected to what the home grid shows. */
module VideosRoute {
  import opened Schema
  import opened Catalog

  const PlaceholderThumb := "/placeholder-thumb.svg"
  const ThumbRoute := "/api/thumb/"

  /** One entry of the response: the record without its video handle, with a
      thumbnail address in place of the thumbnail handle. */
  datatype Listing = Listing(
    id: string,
    title: string,
    description: string,
    duration: int,
    thumbnail_url: string,
    uploaded_at: int)

  /** The response body. */
  datatype Response =
    | NoVideos(videos: seq<Listing>, message: string)   // the catalog file is absent
    | Listed(videos: seq<Listing>, total: nat)
    | ServerError(error: string)                        // status 500

  const NoVideosMessage := "No videos yet"
  const FetchFailed := "Failed to fetch videos"

  /** The projection of one record. */
  function Project(v: Video): (l: Listing)
    ensures l.id == v.id && l.title == v.title && l.description == v.description
    ensures l.duration == v.duration && l.uploaded_at == v.uploaded_at
    ensures v.thumb_file_id != "" ==> l.thumbnail_url == ThumbRoute + v.id
    ensures v.thumb_file_id == "" ==> l.thumbnail_url == PlaceholderThumb
  {
    Listing(v.id, v.title, v.description, v.duration,
      if v.thumb_file_id != "" then ThumbRoute + v.id else PlaceholderThumb,
      v.uploaded_at)
  }

  /** The filter / map chain. */
  function ListVideos(stored: seq<Video>): (out: seq<Listing>)
    ensures |out| <= |stored|
  {
    if stored == [] then []
    else if Visible(stored[0]) then [Project(stored[0])] + ListVideos(stored[1..])
    else ListVideos(stored[1..])
  }

  /** GET on the catalog file. */
  function Get(file: CatalogFile): (r: Response)
    ensures file.Missing? ==> r == NoVideos([], NoVideosMessage)
    ensures file.Unreadable? ==> r == ServerError(FetchFailed)
    ensures file.Records? ==> r.Listed? && r.videos == ListVideos(file.videos) && r.total == |r.videos|
  {
    match file
    case Missing => NoVideos([], NoVideosMessage)
    case Unreadable => ServerError(FetchFailed)
    case Records(stored) =>
      var out := ListVideos(stored);
      Listed(out, |out|)
  }

  /** The projection of every record of a sequence, in order. */
  function ProjectAll(s: seq<Video>): (r: seq<Listing>)
    ensures |r| == |s|
    ensures forall i :: 0 <= i < |s| ==> r[i] == Project(s[i])
  {
    if s == [] then [] else [Project(s[0])] + ProjectAll(s[1..])
  }

  /** The listing is the projection of the visible records. */
  lemma {:induction false} ListIsProjectAll(stored: seq<Video>)
    ensures ListVideos(stored) == ProjectAll(KeepVisible(stored))
    decreases |stored|
  {
    if stored != [] {
      ListIsProjectAll(stored[1..]);
      if Visible(stored[0]) {
        assert KeepVisible(stored) == [stored[0]] + KeepVisible(stored[1..]);
        assert ([stored[0]] + KeepVisible(stored[1..]))[1..] == KeepVisible(stored[1..]);
      }
    }
  }

  /** The listing is, entry by entry, the projection of the visible records. */
  lemma ListIsProjectionOfVisible(stored: seq<Video>)
    ensures |ListVideos(stored)| == |KeepVisible(stored)|
    ensures forall i :: 0 <= i < |ListVideos(stored)| ==> ListVideos(stored)[i] == Project(KeepVisible(stored)[i])
  {
    ListIsProjectAll(stored);
  }

  /** The listing keeps the stored order: listing a concatenation is concatenating the
      listings. */
  lemma {:induction false} ListKeepsOrder(a: seq<Video>, b: seq<Video>)
    ensures ListVideos(a + b) == ListVideos(a) + ListVideos(b)
    decreases |a|
  {
    if a == [] {
      assert a + b == b;
    } else {
      assert (a + b)[1..] == a[1..] + b;
      ListKeepsOrder(a[1..], b);
    }
  }

  /** An entry is listed exactly when a visible stored record projects to it; so the
      sample record and handle-less records are never listed. */
  lemma {:induction false} ListMembership(stored: seq<Video>, l: Listing)
    ensures l in ListVideos(stored) <==> exists v :: v in stored && Visible(v) && Project(v) == l
    decreases |stored|
  {
    if stored != [] {
      ListMembership(stored[1..], l);
      if exists v :: v in stored && Visible(v) && Project(v) == l {
        var v :| v in stored && Visible(v) && Project(v) == l;
        if v != stored[0] {
          assert v in stored[1..];
        }
      }
    }
  }

  /** A listed id is never the sample id. */
  lemma ListExcludesDemo(stored: seq<Video>, l: Listing)
    requires l in ListVideos(stored)
    ensures l.id != DemoId
  {
    ListMembership(stored, l);
  }

  /** The video handle is not exposed: records differing only in it list the same. */
  lemma ProjectIgnoresHandle(v: Video, handle: string)
    ensures Project(v.(file_id := handle)) == Project(v)
  {
  }
}
