/**
 * The sofia site's application (crates/roko-sofia-client/src/lib.rs): its
 * messages, its model, `update` and `init`.
 *
 * `update` writes the location hash and the document title as it handles
 * `ChangePage`. Those two browser properties are kept next to the site's
 * model in `State`, which is the model the update loop of `DomApp` runs with.
 */
module SofiaApp {
  import opened Wrappers
  import opened SofiaPages
  import opened DomApp

  datatype Message = Init | ChangePage(page: Page) | HashChange(hash: string)

  datatype Project = Project(title: string, description: string, link: string)

  datatype Model = Model(page: Page, projects: seq<Project>)

  /** The browser properties the application writes: `location.hash` and `document.title`. */
  datatype Browser = Browser(hash: string, title: string)

  datatype State = State(model: Model, browser: Browser)

  /** `Cmd::message`: the model unchanged and one message to handle next. */
  function CmdMessage<T, M>(model: T, msg: M): (r: Cmd<T, M>)
    ensures r.model == model && r.future == Some(msg)
  {
    Cmd(model, Some(msg))
  }

  /** `navbar::update`: move to `page`, keep the projects, issue nothing. */
  function NavbarUpdate(page: Page, model: Model): (r: Cmd<Model, Message>)
    ensures r.model.page == page && r.model.projects == model.projects && r.future == None
  {
    CmdNone(model.(page := page))
  }

  /**
   * `update`: a hash change asks to change to the page the hash names; `Init`
   * asks to change to the page the model is on; a page change writes that
   * page's hash and title and moves the model there.
   */
  function Update(msg: Message, st: State): (r: Cmd<State, Message>)
    ensures r.future.None? || r.future.value.ChangePage?
    ensures msg.HashChange? ==> r == Cmd(st, Some(ChangePage(FromHash(msg.hash))))
    ensures msg.Init? ==> r == Cmd(st, Some(ChangePage(st.model.page)))
    ensures msg.ChangePage? ==> r.future == None && r.model.model == Model(msg.page, st.model.projects) && InSync(r.model)
  {
    match msg
    case HashChange(hash) => CmdMessage(st, ChangePage(FromHash(hash)))
    case Init => CmdMessage(st, ChangePage(st.model.page))
    case ChangePage(page) =>
      var browser := Browser(ToHash(page), ToTitle(page));
      var cmd := NavbarUpdate(page, st.model);
      Cmd(State(cmd.model, browser), cmd.future)
  }

  /** The three projects `init` lists, in order. */
  const PROJECTS: seq<Project> := [
    Project("Vulpi", "A compiler written in Rust for the backend of this site :)",
            "https://github.com/vulpi-lang/vulpi"),
    Project("Nuko", "A compiler written in Haskell for a language with Higher rank polymorphism",
            "https://github.com/algebraic-sofia/nuko"),
    Project("Roko", "A simple elm-like virtual dom for this website!",
            "https://github.com/algebraic-sofia/roko")
  ]

  /**
   * `init`: the page the current hash names, the three projects, and `Init`
   * to handle first. The browser is as found: `hash` and `title`.
   */
  function InitApp(hash: string, title: string): (r: Cmd<State, Message>)
    ensures r.model.model.page == FromHash(hash) && r.model.browser == Browser(hash, title)
    ensures |r.model.model.projects| == 3
    ensures r.model.model.projects[0].title == "Vulpi" && r.model.model.projects[1].title == "Nuko"
      && r.model.model.projects[2].title == "Roko"
    ensures r.future == Some(Init)
  {
    CmdMessage(State(Model(FromHash(hash), PROJECTS), Browser(hash, title)), Init)
  }

  /** The browser shows the model's page: its hash and its title. */
  predicate InSync(st: State) {
    st.browser.hash == ToHash(st.model.page) && st.browser.title == ToTitle(st.model.page)
  }

  // ----- properties -----

  /**
   * A hash change followed by the page change it asks for lands on the page
   * the hash names, with that page's own hash and title in the browser.
   */
  lemma HashChangeRoutes(h: string, st: State)
    ensures Update(HashChange(h), st).future == Some(ChangePage(FromHash(h)))
    ensures var r := Replay(Update, st, [HashChange(h), ChangePage(FromHash(h))]);
      && r.model.page == FromHash(h) && r.model.projects == st.model.projects
      && r.browser == Browser(ToHash(FromHash(h)), ToTitle(FromHash(h)))
      && InSync(r)
  {
    ReplayTwo(Update, st, HashChange(h), ChangePage(FromHash(h)));
  }

  /**
   * Starting up on a hash lands on the page that hash names, with the three
   * projects, and the browser shows that page.
   */
  lemma StartupRoutes(hash: string, title: string)
    ensures var i := InitApp(hash, title);
      && Update(Init, i.model).future == Some(ChangePage(FromHash(hash)))
      && var r := Replay(Update, i.model, [Init, ChangePage(FromHash(hash))]);
      && r.model == Model(FromHash(hash), PROJECTS)
      && InSync(r)
  {
    ReplayTwo(Update, InitApp(hash, title).model, Init, ChangePage(FromHash(hash)));
  }

  /**
   * The hash change that writing the hash provokes is harmless: in a state
   * where the browser shows the model's page, handling the hash change for the
   * browser's own hash and the page change it asks for leaves the state as it
   * was, and that page change names the page the model is on.
   */
  lemma EchoIsFixedPoint(st: State)
    requires InSync(st)
    ensures Update(HashChange(st.browser.hash), st).future == Some(ChangePage(st.model.page))
    ensures Replay(Update, st, [HashChange(st.browser.hash), ChangePage(st.model.page)]) == st
  {
    HashRoundTrip(st.model.page);
    ReplayTwo(Update, st, HashChange(st.browser.hash), ChangePage(st.model.page));
  }

  /** A later hash change for an unknown hash sends the site home and normalises the hash to "#". */
  lemma UnknownHashGoesHome(h: string, st: State)
    requires h != "#blog" && h != "#projects" && h != "#resume"
    ensures var r := Replay(Update, st, [HashChange(h), ChangePage(FromHash(h))]);
      r.model.page == Home && r.browser.hash == "#"
  {
    HashChangeRoutes(h, st);
  }
}
