/**
 * The pages of the sofia site and their hash routing
 * (crates/roko-sofia-client/src/pages/mod.rs): a page is named in the
 * location hash, in the document title and in the navigation bar.
 */
module SofiaPages {

  datatype Page = Home | Blog | Projects | Resume

  /** `Page::from_hash`: total; the empty hash, "#" and every unknown hash lead home. */
  function FromHash(hash: string): (r: Page)
    ensures r == Home <==> hash != "#blog" && hash != "#projects" && hash != "#resume"
    ensures r != Home ==> ToHash(r) == hash
  {
    if hash == "" || hash == "#" then Home
    else if hash == "#blog" then Blog
    else if hash == "#projects" then Projects
    else if hash == "#resume" then Resume
    else Home
  }

  /** `Page::to_hash`: the hash that names a page in the location. */
  function ToHash(p: Page): (r: string)
    ensures |r| >= 1 && r[0] == '#'
  {
    match p
    case Home => "#"
    case Blog => "#blog"
    case Projects => "#projects"
    case Resume => "#resume"
  }

  /** `Page::to_title`: the document title of a page. */
  function ToTitle(p: Page): (r: string)
    ensures |r| == |Display(p)| + |" | Sofia"|
    ensures forall i :: 0 <= i < |" | Sofia"| ==> r[|Display(p)| + i] == " | Sofia"[i]
  {
    match p
    case Home => "Home | Sofia"
    case Blog => "Blog | Sofia"
    case Projects => "Projects | Sofia"
    case Resume => "Resume | Sofia"
  }

  /** `Display for Page`: the lower-case name shown in the navigation bar. */
  function Display(p: Page): (r: string)
    ensures r != [] && forall i :: 0 <= i < |r| ==> 'a' <= r[i] <= 'z'
    ensures p != Home ==> ToHash(p) == "#" + r
  {
    match p
    case Home => "home"
    case Blog => "blog"
    case Projects => "projects"
    case Resume => "resume"
  }

  /** `PAGES`: every page, in navigation order. */
  const PAGES: seq<Page> := [Home, Blog, Projects, Resume]

  /**
   * `page(model, ..)`: the view of the page the model is on, chosen among the
   * four sub-page views (which are templates, given here as parameters).
   */
  function PageView<V>(p: Page, home: V, blog: V, projects: V, resume: V): (r: V)
    ensures r == [home, blog, projects, resume][IndexOfPage(p)]
  {
    match p
    case Home => home
    case Blog => blog
    case Projects => projects
    case Resume => resume
  }

  /** The position of a page in `PAGES`. */
  function IndexOfPage(p: Page): (i: nat)
    ensures i < |PAGES| && PAGES[i] == p
  {
    match p
    case Home => 0
    case Blog => 1
    case Projects => 2
    case Resume => 3
  }

  // ----- properties -----

  /** Every page survives a trip through its hash. */
  lemma HashRoundTrip(p: Page)
    ensures FromHash(ToHash(p)) == p
  {
  }

  /** Pages with the same hash are the same page. */
  lemma ToHashInjective(p: Page, q: Page)
    requires ToHash(p) == ToHash(q)
    ensures p == q
  {
    HashRoundTrip(p);
    HashRoundTrip(q);
  }

  /** Normalising a hash (reading it as a page and writing that page back) is idempotent. */
  lemma NormaliseIdempotent(hash: string)
    ensures ToHash(FromHash(ToHash(FromHash(hash)))) == ToHash(FromHash(hash))
    ensures FromHash(ToHash(FromHash(hash))) == FromHash(hash)
  {
    HashRoundTrip(FromHash(hash));
  }

  /** A hash is left as it is by normalising exactly when it is the hash of a page. */
  lemma NormalFormIff(hash: string)
    ensures ToHash(FromHash(hash)) == hash <==> exists p :: ToHash(p) == hash
  {
    if exists p :: ToHash(p) == hash {
      var p :| ToHash(p) == hash;
      HashRoundTrip(p);
    }
  }

  /**
   * Every page except `Home` has the hash "#" followed by its displayed name;
   * `Home` has "#", and "#home" is unknown and also leads home.
   */
  lemma HashIsDisplayedName(p: Page)
    ensures p != Home ==> ToHash(p) == "#" + Display(p)
    ensures ToHash(Home) == "#" && "#" + Display(Home) == "#home" && FromHash("#home") == Home
  {
  }

  /** A title starts with the displayed name of its page, its first letter in upper case. */
  lemma TitleNamesPage(p: Page)
    ensures var name := Display(p);
      && ToTitle(p)[0] as int == name[0] as int - 32
      && forall i :: 1 <= i < |name| ==> ToTitle(p)[i] == name[i]
  {
  }

  /** Different pages have different titles and different displayed names. */
  lemma TitlesAndNamesDistinct(p: Page, q: Page)
    requires p != q
    ensures ToTitle(p) != ToTitle(q) && Display(p) != Display(q)
  {
  }

  /** `PAGES` lists each page exactly once, in the order Home, Blog, Projects, Resume. */
  lemma PagesListEachOnce()
    ensures |PAGES| == 4 && PAGES[0] == Home && PAGES[1] == Blog && PAGES[2] == Projects && PAGES[3] == Resume
    ensures forall p: Page :: p in PAGES
    ensures forall i, j :: 0 <= i < j < |PAGES| ==> PAGES[i] != PAGES[j]
  {
    forall p: Page ensures p in PAGES {
      assert PAGES[IndexOfPage(p)] == p;
    }
  }
}
