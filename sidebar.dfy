/** The navigation highlight of the sidebar (`app/components/Sidebar.js`). */
module Sidebar {

  predicate IsPrefix(p: string, s: string) {
    |p| <= |s| && s[..|p|] == p
  }

  /** `pathname === href || pathname.startsWith(href + '/')`. */
  predicate IsActive(pathname: string, href: string) {
    pathname == href || IsPrefix(href + "/", pathname)
  }

  /** The same rule stated on the rest of the path: the pathname is the href followed
      by nothing or by a `/`-led remainder. */
  ghost predicate ActiveByRest(pathname: string, href: string) {
    exists rest :: pathname == href + rest && (rest == "" || rest[0] == '/')
  }

  lemma IsActiveMeaning(pathname: string, href: string)
    ensures IsActive(pathname, href) <==> ActiveByRest(pathname, href)
    ensures IsActive(pathname, href) ==> IsPrefix(href, pathname)
  {
    if IsActive(pathname, href) {
      var rest := pathname[|href|..];
      if pathname != href {
        assert pathname[|href|] == (href + "/")[|href|];
      }
      assert pathname == href + rest;
    }
    if ActiveByRest(pathname, href) {
      var rest :| pathname == href + rest && (rest == "" || rest[0] == '/');
      if rest != "" {
        assert pathname[..|href| + 1] == href + "/";
      }
    }
  }

  /** A path that merely extends the last segment is not active: `/uploads` does not
      light up `/upload`. */
  lemma SegmentBoundary()
    ensures !IsActive("/uploads", "/upload")
    ensures IsActive("/upload", "/upload") && IsActive("/upload/new", "/upload")
  {
    assert "/uploads"[..8][7] == 's' != ("/upload" + "/")[7];
    assert "/upload/new"[..8] == "/upload/";
  }

  /** The home link `/` is active only at `/` itself or under a `//` prefix: the other
      pages do not light it up. */
  lemma HomeOnlyAtRoot(pathname: string)
    ensures IsActive(pathname, "/") <==> pathname == "/" || IsPrefix("//", pathname)
  {
  }
}
