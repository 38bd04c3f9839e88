/**
 * Commands and the update loop of an application (crates/roko-dom/src/lib.rs).
 *
 * A command is modelled as already resolved: the model it carries and the
 * message its future yields, if any. The loop is first stated on values
 * (`Turn`, `Loop`): each turn takes the oldest queued message, updates the
 * model, computes the new view, patches the root with the diff of the views,
 * and queues the command's message. `Start` runs the loop on the live
 * document and is proved to follow those values.
 */
module DomApp {
  import opened Wrappers
  import opened RokoHtml
  import opened Host
  import opened DomRender
  import opened DomPatch
  import opened DomDiff

  /** `Cmd<Model, Msg>`: the next model, and the message its future resolves to, if any. */
  datatype Cmd<Model, M> = Cmd(model: Model, future: Option<M>)

  /** `Cmd::new`: the model as given, with the given command. */
  function CmdNew<Model, M>(model: Model, future: Option<M>): (r: Cmd<Model, M>)
    ensures r.model == model && r.future == future
  {
    Cmd(model, future)
  }

  /** `Cmd::none`: the model as given, with a command that yields no message. */
  function CmdNone<Model, M>(model: Model): (r: Cmd<Model, M>)
    ensures r.model == model && r.future == None
  {
    Cmd(model, None)
  }

  /** The outcome of polling a future. */
  datatype Poll<T> = Ready(value: T) | Pending

  /**
   * `Future::poll` for `Cmd<T, ()>`: ready with `Some(())` exactly when the
   * inner future is ready with a message; a future that finished without a
   * message is reported as still pending.
   */
  function PollUnit<M>(inner: Poll<Option<M>>): (r: Poll<Option<()>>)
    ensures r.Ready? <==> inner.Ready? && inner.value.Some?
    ensures r.Ready? ==> r.value == Some(())
  {
    if inner.Ready? && inner.value.Some? then Ready(Some(())) else Pending
  }

  /** The command of `Cmd::none` never reports ready. */
  lemma PollOfNoneIsPending<Model, M>(model: Model)
    ensures CmdNone<Model, M>(model).future == None
    ensures PollUnit(Ready(CmdNone<Model, M>(model).future)) == Pending
  {
  }

  // ----- the update loop on values -----

  /** The message a command sends when it is awaited. */
  function Enqueued<M>(future: Option<M>): (r: seq<M>)
    ensures future.Some? ==> r == [future.value]
    ensures future.None? ==> r == []
  {
    if future.Some? then [future.value] else []
  }

  /** Every view the application can produce can be rendered. */
  ghost predicate Renders<Model(!new), M>(view: Model -> Html<M>) {
    forall m :: RenderableHtml(view(m))
  }

  /**
   * The loop's state: the model, the view last rendered, the root element's
   * subtree and its standing in the body, the queued messages, the messages
   * handled so far and the keys passed to the `on_mount` hook.
   */
  datatype Loop<Model, M> = Loop(model: Model, view: Html<M>, root: Tree<M>, slot: Slot<M>,
                                 queue: seq<M>, handled: seq<M>, hooked: seq<string>)

  /** The state once the root element is in the body and the initial command has been awaited. */
  function Initial<Model, M>(view: Model -> Html<M>, init: Cmd<Model, M>): (r: Loop<Model, M>)
    requires view(init.model).Node? && RenderableHtml(view(init.model))
    ensures r.view == view(r.model) && r.model == init.model && r.handled == []
    ensures r.queue == Enqueued(init.future) && r.root == Rendered(view(init.model))
  {
    Loop(init.model, view(init.model), Rendered(view(init.model)), Attached, Enqueued(init.future), [], [])
  }

  /**
   * One turn: the oldest message updates the model, the root is patched with
   * the diff of the last view against the new one, and the command's message
   * goes to the back of the queue, after anything the patch sent.
   */
  function Turn<Model(!new), M(==)>(view: Model -> Html<M>, update: (M, Model) -> Cmd<Model, M>, hook: bool,
                                    s: Loop<Model, M>): (r: Loop<Model, M>)
    requires Renders(view) && RenderableHtml(s.view) && s.queue != []
    ensures r.view == view(r.model) && r.model == update(s.queue[0], s.model).model
    ensures r.handled == s.handled + [s.queue[0]]
  {
    var msg := s.queue[0];
    var cmd := update(msg, s.model);
    var next := view(cmd.model);
    DiffApplicable(s.view, next);
    var o := Step(Diff(s.view, next), s.root, s.slot, hook);
    Loop(cmd.model, next, o.tree, o.slot, s.queue[1..] + o.sent + Enqueued(cmd.future), s.handled + [msg], s.hooked + o.hooked)
  }

  /** At most `fuel` turns, stopping early when the queue runs empty. */
  function Run<Model(!new), M(==)>(view: Model -> Html<M>, update: (M, Model) -> Cmd<Model, M>, hook: bool,
                                   s: Loop<Model, M>, fuel: nat): (r: Loop<Model, M>)
    requires Renders(view) && RenderableHtml(s.view)
    ensures RenderableHtml(r.view)
    ensures s.view == view(s.model) ==> r.view == view(r.model)
    decreases fuel
  {
    if fuel == 0 || s.queue == [] then s else Run(view, update, hook, Turn(view, update, hook, s), fuel - 1)
  }

  /** With budget left and a message queued, the loop takes one turn and goes on with the rest of the budget. */
  lemma RunTakesTurn<Model(!new), M>(view: Model -> Html<M>, update: (M, Model) -> Cmd<Model, M>, hook: bool,
                                         s: Loop<Model, M>, fuel: nat)
    requires Renders(view) && RenderableHtml(s.view) && fuel > 0 && s.queue != []
    ensures Run(view, update, hook, s, fuel) == Run(view, update, hook, Turn(view, update, hook, s), fuel - 1)
  {
  }

  /** The model after handling `msgs` in order. */
  function Replay<Model, M>(update: (M, Model) -> Cmd<Model, M>, model: Model, msgs: seq<M>): Model
    decreases |msgs|
  {
    if msgs == [] then model else Replay(update, update(msgs[0], model).model, msgs[1..])
  }

  /** Handling two messages is handling the first, then the second from where the first left the model. */
  lemma ReplayTwo<Model, M>(update: (M, Model) -> Cmd<Model, M>, model: Model, a: M, b: M)
    ensures Replay(update, model, [a, b]) == update(b, update(a, model).model).model
  {
    var m1 := update(a, model).model;
    assert [a, b][1..] == [b] && [b][1..] == [];
    assert Replay(update, m1, [b]) == Replay(update, update(b, m1).model, []);
  }

  // ----- properties of the loop -----

  /** Everything handled so far, then everything still queued, in order. */
  function Log<Model, M>(s: Loop<Model, M>): seq<M> {
    s.handled + s.queue
  }

  /** A turn only appends to the log: the message it takes was the oldest, and what it queues goes last. */
  lemma TurnIsFifo<Model(!new), M>(view: Model -> Html<M>, update: (M, Model) -> Cmd<Model, M>, hook: bool, s: Loop<Model, M>)
    requires Renders(view) && RenderableHtml(s.view) && s.queue != []
    ensures Log(s) <= Log(Turn(view, update, hook, s))
  {
    var t := Turn(view, update, hook, s);
    assert Log(t) == s.handled + [s.queue[0]] + t.queue;
    assert t.queue[..|s.queue| - 1] == s.queue[1..];
  }

  /**
   * `r` is `s` after at most `fuel` turns, first in, first out: what was
   * handled or queued in `s` is, in the same order, a prefix of what is
   * handled or queued in `r`, and fewer than `fuel` turns were taken only if
   * the queue ran empty.
   */
  ghost predicate FifoFrom<Model, M>(s: Loop<Model, M>, r: Loop<Model, M>, fuel: nat) {
    && Log(s) <= Log(r)
    && |s.handled| <= |r.handled| <= |s.handled| + fuel
    && (r.queue == [] || |r.handled| == |s.handled| + fuel)
  }

  /** One turn that appends to the log, then the rest of the run. */
  lemma FifoAfter<Model, M>(s: Loop<Model, M>, t: Loop<Model, M>, r: Loop<Model, M>, fuel: nat)
    requires fuel > 0 && Log(s) <= Log(t) && |t.handled| == |s.handled| + 1 && FifoFrom(t, r, fuel - 1)
    ensures FifoFrom(s, r, fuel)
  {
    PrefixTransitive(Log(s), Log(t), Log(r));
  }

  /** Messages are handled first in, first out, and the loop stops only when the queue is empty or the budget is spent. */
  lemma {:induction false} RunIsFifo<Model(!new), M>(view: Model -> Html<M>, update: (M, Model) -> Cmd<Model, M>,
                                                     hook: bool, s: Loop<Model, M>, fuel: nat)
    requires Renders(view) && RenderableHtml(s.view)
    ensures FifoFrom(s, Run(view, update, hook, s, fuel), fuel)
    decreases fuel
  {
    if fuel > 0 && s.queue != [] {
      var t := Turn(view, update, hook, s);
      TurnIsFifo(view, update, hook, s);
      RunIsFifo(view, update, hook, t, fuel - 1);
      RunTakesTurn(view, update, hook, s, fuel);
      FifoAfter(s, t, Run(view, update, hook, t, fuel - 1), fuel);
    }
  }

  lemma PrefixTransitive<T>(a: seq<T>, b: seq<T>, c: seq<T>)
    requires a <= b && b <= c
    ensures a <= c
  {
    assert c[..|b|][..|a|] == c[..|a|];
  }

  /**
   * One step of the replay: if `mr` replays the messages after a handled
   * prefix `b == a + [x]` from the model `mx` that `x` led to, then it
   * replays the messages after `a` from the model before `x`.
   */
  lemma ReplayAfter<Model, M>(update: (M, Model) -> Cmd<Model, M>, m0: Model, a: seq<M>, x: M, mx: Model, b: seq<M>,
                              c: seq<M>, mr: Model)
    requires b == a + [x] && b <= c && mx == update(x, m0).model
    requires mr == Replay(update, mx, c[|b|..])
    ensures a <= c && mr == Replay(update, m0, c[|a|..])
  {
    assert c[|a|] == b[|a|];
    assert c[|a|..][1..] == c[|b|..];
  }

  /** `r` extends the handled messages of `s`, and its model replays the new ones from the model of `s`. */
  ghost predicate ReplaysFrom<Model, M>(update: (M, Model) -> Cmd<Model, M>, s: Loop<Model, M>, r: Loop<Model, M>) {
    s.handled <= r.handled && r.model == Replay(update, s.model, r.handled[|s.handled|..])
  }

  /** The model is the starting model updated with every handled message, in order. */
  lemma {:induction false} RunReplays<Model(!new), M>(view: Model -> Html<M>, update: (M, Model) -> Cmd<Model, M>,
                                                      hook: bool, s: Loop<Model, M>, fuel: nat)
    requires Renders(view) && RenderableHtml(s.view)
    ensures ReplaysFrom(update, s, Run(view, update, hook, s, fuel))
    decreases fuel
  {
    if fuel > 0 && s.queue != [] {
      var t := Turn(view, update, hook, s);
      var r := Run(view, update, hook, t, fuel - 1);
      RunReplays(view, update, hook, t, fuel - 1);
      ReplayAfter(update, s.model, s.handled, s.queue[0], t.model, t.handled, r.handled, r.model);
    }
  }

  /** The initial command's message, when there is one, is the first message handled. */
  lemma InitialMessageFirst<Model(!new), M>(view: Model -> Html<M>, update: (M, Model) -> Cmd<Model, M>,
                                                hook: bool, init: Cmd<Model, M>, fuel: nat)
    requires Renders(view) && view(init.model).Node? && init.future.Some? && fuel > 0
    ensures var r := Run(view, update, hook, Initial(view, init), fuel);
      |r.handled| > 0 && r.handled[0] == init.future.value
  {
    var s := Initial(view, init);
    RunIsFifo(view, update, hook, s, fuel);
    var r := Run(view, update, hook, s, fuel);
    assert Log(r)[0] == Log(s)[0];
  }

  // ----- the loop on the live document -----

  /**
   * `start`: render the initial view into the body. A text view only sets the
   * body's text, and nothing more happens. Otherwise the root element is
   * appended to the body, the initial command's message is queued, and queued
   * messages are handled in turn until none is left (the source then waits
   * for a click) or `fuel` turns have been taken. The root element keeps being
   * patched even after a patch has replaced or removed it.
   */
  method Start<Model(!new), M(==)>(view: Model -> Html<M>, update: (M, Model) -> Cmd<Model, M>, init: Cmd<Model, M>,
                                  body: Element<M>, onMount: bool, fuel: nat)
    returns (root: Option<Element<M>>, ctx: Context<M>, model: Model, current: Html<M>, handled: seq<M>, ghost swap: Element?<M>)
    requires Renders(view) && body.Valid()
    modifies body.repr
    ensures fresh(ctx) && ctx.onMount == onMount
    ensures view(init.model).Text? ==>
      && root == None && handled == [] && ctx.channel == [] && ctx.hooked == [] && model == init.model
      && body.Valid() && body.Abs() == WithText(old(body.Abs()), view(init.model).text)
    ensures view(init.model).Node? ==>
      var r := Run(view, update, onMount, Initial(view, init), fuel);
      && root.Some? && fresh(root.value.repr)
      && model == r.model && current == r.view && handled == r.handled
      && ctx.channel == r.queue && ctx.hooked == r.hooked
      && root.value.Valid() && root.value.Abs() == r.root
      && Settled(root.value, body, old(body.children) + [root.value], r.slot, swap)
  {
    ctx := new Context(onMount);
    model := init.model;
    current := view(model);
    handled := [];
    swap := null;
    root := Render(current, body);
    if root.None? {
      return;
    }
    var el := root.value;
    body.AppendChild(el);
    ghost var before := body.children;
    ghost var slot: Slot<M> := Attached;
    if init.future.Some? {
      ctx.Send(init.future.value);
    }
    assert Loop(model, current, el.Abs(), slot, ctx.channel, handled, ctx.hooked) == Initial(view, init);
    model, current, handled, slot, swap := Serve(view, update, el, ctx, model, current, handled, body, before, slot, swap, fuel);
  }

  /** The `while let` loop of `start`: at most `fuel` turns, stopping when the queue runs empty. */
  method Serve<Model(!new), M(==)>(view: Model -> Html<M>, update: (M, Model) -> Cmd<Model, M>, el: Element<M>, ctx: Context<M>,
                                  model: Model, current: Html<M>, handled: seq<M>,
                                  ghost body: Element<M>, ghost before: seq<Element<M>>, ghost slot: Slot<M>, ghost swap: Element?<M>,
                                  fuel: nat)
    returns (model': Model, current': Html<M>, handled': seq<M>, ghost slot': Slot<M>, ghost swap': Element?<M>)
    requires Renders(view) && RenderableHtml(current) && Standing(el, body, before, slot, swap)
    modifies el.repr, body`children, ctx`channel, ctx`hooked
    ensures Standing(el, body, before, slot', swap') && old(el.repr) <= el.repr && fresh(el.repr - old(el.repr))
    ensures Loop(model', current', el.Abs(), slot', ctx.channel, handled', ctx.hooked)
         == Run(view, update, ctx.onMount, old(Loop(model, current, el.Abs(), slot, ctx.channel, handled, ctx.hooked)), fuel)
  {
    ghost var goal := Run(view, update, ctx.onMount, Loop(model, current, el.Abs(), slot, ctx.channel, handled, ctx.hooked), fuel);
    model', current', handled', slot', swap' := model, current, handled, slot, swap;
    var n := fuel;
    while n > 0 && ctx.channel != []
      invariant Standing(el, body, before, slot', swap') && old(el.repr) <= el.repr && fresh(el.repr - old(el.repr))
      invariant RenderableHtml(current')
      invariant goal == Run(view, update, ctx.onMount, Loop(model', current', el.Abs(), slot', ctx.channel, handled', ctx.hooked), n)
      decreases n
    {
      model', current', handled', slot', swap' := TakeTurn(view, update, el, ctx, model', current', handled', body, before, slot', swap');
      n := n - 1;
    }
  }

  /** One turn of `start` on the live document: it does what `Turn` says. */
  method TakeTurn<Model(!new), M(==)>(view: Model -> Html<M>, update: (M, Model) -> Cmd<Model, M>, el: Element<M>, ctx: Context<M>,
                                     model: Model, current: Html<M>, handled: seq<M>,
                                     ghost body: Element<M>, ghost before: seq<Element<M>>, ghost slot: Slot<M>, ghost swap: Element?<M>)
    returns (model': Model, current': Html<M>, handled': seq<M>, ghost slot': Slot<M>, ghost swap': Element?<M>)
    requires Renders(view) && RenderableHtml(current) && ctx.channel != [] && Standing(el, body, before, slot, swap)
    modifies el.repr, body`children, ctx`channel, ctx`hooked
    ensures Standing(el, body, before, slot', swap') && old(el.repr) <= el.repr && fresh(el.repr - old(el.repr))
    ensures RenderableHtml(current')
    ensures Loop(model', current', el.Abs(), slot', ctx.channel, handled', ctx.hooked)
         == Turn(view, update, ctx.onMount, old(Loop(model, current, el.Abs(), slot, ctx.channel, handled, ctx.hooked)))
  {
    var msg := ctx.Receive();
    var cmd := update(msg, model);
    model' := cmd.model;
    current' := view(model');
    var patch := Diff(current, current');
    DiffApplicable(current, current');
    ghost var o := Step(patch, el.Abs(), slot, ctx.onMount);
    ghost var rest := ctx.channel;
    slot', swap' := Apply(patch, el, ctx, body, before, slot, swap);
    assert el.Abs() == o.tree && slot' == o.slot && ctx.channel == rest + o.sent;
    if cmd.future.Some? {
      ctx.Send(cmd.future.value);
    }
    assert ctx.channel == rest + o.sent + Enqueued(cmd.future);
    handled' := handled + [msg];
  }
}
