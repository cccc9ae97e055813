/**
 * The router's navigation pipeline `AZRouter.onPROCESS`
 * (SRC/AZCore.js:458-491): match the URL, extract the parameters, await a
 * fixed sequence of steps and, only when none of them throws, remember the
 * route and parameters as `onPREVIOUS`.  What each step does inside the
 * document, the progress bar or user callbacks is opaque: a `World` says
 * which steps throw and what the route's `onREDIRECT` callback answers.
 */
module Navigation {
  import opened Wrappers
  import opened Routes

  /** The awaited steps of `onPROCESS`. */
  datatype Step =
    | Resolve        // onAFFIX(AFFIXES.onVIEW, PARAMS)
    | ProgressStart  // onPROGRESSSTART
    | ScrollStore    // onSCROLLstore(onPREVIOUS.PARAMS)
    | Before         // onBEFOREX: the global then the route's onBEFORE
    | Redirect       // onREDIRECT
    | Leave          // onLEAVE of the previous route
    | TransitionOut  // transitionOUT
    | Render         // onRENDERER
    | TransitionIn   // transitionIN
    | ScrollRestore  // onSCROLLY
    | ProgressEnd    // onPROGRESSEND
    | Loaded         // onLOADED

  /** The order in which `onPROCESS` awaits its steps. */
  const Pipeline: seq<Step> :=
    [Resolve, ProgressStart, ScrollStore, Before, Redirect, Leave,
     TransitionOut, Render, TransitionIn, ScrollRestore, ProgressEnd, Loaded]

  /** Window scroll offsets. */
  datatype Position = Position(x: int, y: int)

  /** `onSCROLL.STORAGE`: the offsets left behind on the page whose `on` is kept. */
  datatype Stored = Stored(at: Position, on: string)

  /** `onPREVIOUS` once set: the matched route and its parameters. */
  datatype Visit = Visit(route: Route, params: map<string, string>)

  /** The value of the route's `onREDIRECT` callback: its `REDIRECT` and `ON` fields, `""` when absent. */
  datatype Reply = Reply(redirect: string, on: string)

  /** What the code outside the model does during one navigation. */
  datatype World = World(throws: set<Step>, reply: Reply)

  /** How `onPROCESS` ends: all steps done, a step's error caught, or the fault of an unmatched URL. */
  datatype Outcome = Committed | Caught(at: Step) | Faulted

  /** The router options that the pipeline reads: `routes`, `onROOT`, `on404`, `onMODE`, `onSCROLL.RESTORE`. */
  datatype Config = Config(routes: seq<Route>, root: string, notFound: string, mode: string, restore: string)

  /**
   * The router's state: `onPREVIOUS`, `onSCROLL.STORAGE`, the window's
   * scroll offsets, the URLs of navigations started through `navigateTo`
   * (a redirect or the fallback to `on404`) and the steps run so far.
   */
  datatype Nav = Nav(previous: Option<Visit>, storage: Stored, position: Position, started: seq<string>, ran: seq<Step>)

  /** Every visit carries `on`, which `onPARAMS` always writes. */
  predicate Sound(s: Nav, v: Visit) {
    (s.previous.Some? ==> "on" in s.previous.value.params) && "on" in v.params
  }

  /** `onREDIRECT` navigates when `REDIRECT` (default `OFF`) is `ON` and `ON` is non-empty. */
  predicate Redirects(r: Reply) {
    (if r.redirect == "" then "OFF" else r.redirect) == "ON" && r.on != ""
  }

  /** The route's `onSCROLL.RESTORE`, falling back to the router's. */
  function RestoreSetting(c: Config, route: Route): string {
    if route.restore != "" then route.restore else c.restore
  }

  /** `onSCROLLstore(onPREVIOUS.PARAMS)`: with a previous visit, its `on` and the current offsets are stored. */
  function StoreOf(s: Nav): Stored
    requires s.previous.Some? ==> "on" in s.previous.value.params
  {
    if s.previous.Some? then Stored(s.position, s.previous.value.params["on"]) else s.storage
  }

  /** `onREDIRECT`: the URL of the navigation the route's redirect starts, if any. */
  function RedirectTarget(c: Config, v: Visit, w: World): seq<string> {
    if v.route.redirects && Redirects(w.reply) then [BuildUrl(c.mode, c.root, w.reply.on)] else []
  }

  /**
   * `onSCROLLY`: with restoring on, the stored offsets when the incoming
   * `on` is the stored one and the top-left corner otherwise.
   */
  function Restored(c: Config, v: Visit, st: Stored, pos: Position): Position
    requires "on" in v.params
  {
    if RestoreSetting(c, v.route) != "ON" then pos
    else if v.params["on"] == st.on then st.at
    else Position(0, 0)
  }

  /** What a step that does not throw changes in the router's state. */
  function Effect(c: Config, s: Nav, v: Visit, w: World, step: Step): (t: Nav)
    requires Sound(s, v)
    ensures Sound(t, v) && t.previous == s.previous && t.ran == s.ran
  {
    match step
    case ScrollStore => s.(storage := StoreOf(s))
    case Redirect => s.(started := s.started + RedirectTarget(c, v, w))
    case ScrollRestore => s.(position := Restored(c, v, s.storage, s.position))
    case _ => s
  }

  /** Where the three steps with an effect on the router sit in the pipeline. */
  const StoreAt := 2
  const RedirectAt := 4
  const RestoreAt := 9

  /** Runs the steps of the pipeline from the `k`-th on until one throws; the thrown-from step is returned. */
  function Run(c: Config, s: Nav, v: Visit, w: World, k: nat): (Nav, Option<Step>)
    requires Sound(s, v) && k <= |Pipeline|
    decreases |Pipeline| - k
  {
    if k == |Pipeline| then (s, None)
    else
      var entered := s.(ran := s.ran + [Pipeline[k]]);
      if Pipeline[k] in w.throws then (entered, Some(Pipeline[k]))
      else Run(c, Effect(c, entered, v, w, Pipeline[k]), v, w, k + 1)
  }

  /** The index of the first step from the `k`-th on that throws, or the pipeline's length. */
  function Done(throws: set<Step>, k: nat): (d: nat)
    requires k <= |Pipeline|
    ensures k <= d <= |Pipeline|
    ensures d < |Pipeline| ==> Pipeline[d] in throws
    ensures forall j :: k <= j < d ==> Pipeline[j] !in throws
    decreases |Pipeline| - k
  {
    if k == |Pipeline| || Pipeline[k] in throws then k else Done(throws, k + 1)
  }

  /** The parameters of a matched route; `onPARAMS` cannot fault after a match. */
  function VisitOf(c: Config, i: nat, url: string): (v: Visit)
    requires i < |c.routes| && Matches(c.routes[i].on, url)
    ensures "on" in v.params && v.route == c.routes[i]
  {
    MatchedParams(c.routes[i].on, url);
    Visit(c.routes[i], Params(c.routes[i].on, url).value)
  }

  /**
   * `onPROCESS(url)`: an unmatched URL starts the navigation to `on404` and
   * then faults before the `try`; a matched one runs the pipeline and
   * commits `onPREVIOUS` only when no step threw.
   */
  function Transition(c: Config, s: Nav, url: string, w: World): (Nav, Outcome)
    requires s.previous.Some? ==> "on" in s.previous.value.params
  {
    match Match(c.routes, url)
    case None => (s.(started := s.started + [BuildUrl(c.mode, c.root, c.notFound)]), Faulted)
    case Some(i) =>
      var v := VisitOf(c, i, url);
      var (t, thrown) := Run(c, s, v, w, 0);
      match thrown
      case Some(step) => (t, Caught(step))
      case None => (t.(previous := Some(v)), Committed)
  }

  /** Each of the three steps with an effect sits at its own index. */
  lemma PipelineIndex(k: nat)
    requires k < |Pipeline|
    ensures Pipeline[k] == ScrollStore <==> k == StoreAt
    ensures Pipeline[k] == Redirect <==> k == RedirectAt
    ensures Pipeline[k] == ScrollRestore <==> k == RestoreAt
  {
  }

  /** The pipeline never touches `onPREVIOUS`, and it ends with the first step from `k` on that throws. */
  lemma {:induction false} RunThrown(c: Config, s: Nav, v: Visit, w: World, k: nat)
    requires Sound(s, v) && k <= |Pipeline|
    ensures Run(c, s, v, w, k).0.previous == s.previous
    ensures Run(c, s, v, w, k).1 == if Done(w.throws, k) < |Pipeline| then Some(Pipeline[Done(w.throws, k)]) else None
    decreases |Pipeline| - k
  {
    if k < |Pipeline| && Pipeline[k] !in w.throws {
      var entered := s.(ran := s.ran + [Pipeline[k]]);
      RunThrown(c, Effect(c, entered, v, w, Pipeline[k]), v, w, k + 1);
    }
  }

  /** The number of steps from the `k`-th on that are entered: up to and including the first that throws. */
  function Reached(throws: set<Step>, k: nat): (e: nat)
    requires k <= |Pipeline|
    ensures k <= e <= |Pipeline|
  {
    if Done(throws, k) < |Pipeline| then Done(throws, k) + 1 else |Pipeline|
  }

  /** The steps are entered in pipeline order, from the `k`-th up to the first that throws. */
  lemma {:induction false} RunRan(c: Config, s: Nav, v: Visit, w: World, k: nat)
    requires Sound(s, v) && k <= |Pipeline|
    ensures Run(c, s, v, w, k).0.ran == s.ran + Pipeline[k..Reached(w.throws, k)]
    decreases |Pipeline| - k
  {
    if k < |Pipeline| && Pipeline[k] !in w.throws {
      var entered := s.(ran := s.ran + [Pipeline[k]]);
      var next := Effect(c, entered, v, w, Pipeline[k]);
      RunRan(c, next, v, w, k + 1);
      var e := Reached(w.throws, k);
      assert e == Reached(w.throws, k + 1);
      assert Run(c, s, v, w, k) == Run(c, next, v, w, k + 1);
      assert Pipeline[k..e] == [Pipeline[k]] + Pipeline[k + 1..e];
      assert next.ran + Pipeline[k + 1..e] == s.ran + Pipeline[k..e];
    }
  }

  /** `onSCROLL.STORAGE` changes only when `onSCROLLstore` completes. */
  lemma {:induction false} RunStorage(c: Config, s: Nav, v: Visit, w: World, k: nat)
    requires Sound(s, v) && k <= |Pipeline|
    ensures Run(c, s, v, w, k).0.storage == if k <= StoreAt < Done(w.throws, k) then StoreOf(s) else s.storage
    decreases |Pipeline| - k
  {
    if k < |Pipeline| && Pipeline[k] !in w.throws {
      PipelineIndex(k);
      var entered := s.(ran := s.ran + [Pipeline[k]]);
      RunStorage(c, Effect(c, entered, v, w, Pipeline[k]), v, w, k + 1);
    }
  }

  /** Started navigations grow only when `onREDIRECT` completes. */
  lemma {:induction false} RunStarted(c: Config, s: Nav, v: Visit, w: World, k: nat)
    requires Sound(s, v) && k <= |Pipeline|
    ensures Run(c, s, v, w, k).0.started ==
      s.started + if k <= RedirectAt < Done(w.throws, k) then RedirectTarget(c, v, w) else []
    decreases |Pipeline| - k
  {
    if k < |Pipeline| && Pipeline[k] !in w.throws {
      PipelineIndex(k);
      var entered := s.(ran := s.ran + [Pipeline[k]]);
      RunStarted(c, Effect(c, entered, v, w, Pipeline[k]), v, w, k + 1);
    }
  }

  /** The window offsets change only when `onSCROLLY` completes, and then from the storage of that moment. */
  lemma {:induction false} RunPosition(c: Config, s: Nav, v: Visit, w: World, k: nat)
    requires Sound(s, v) && k <= |Pipeline|
    ensures Run(c, s, v, w, k).0.position ==
      if k <= RestoreAt < Done(w.throws, k)
      then Restored(c, v, if k <= StoreAt < Done(w.throws, k) then StoreOf(s) else s.storage, s.position)
      else s.position
    decreases |Pipeline| - k
  {
    if k < |Pipeline| && Pipeline[k] !in w.throws {
      PipelineIndex(k);
      var entered := s.(ran := s.ran + [Pipeline[k]]);
      var next := Effect(c, entered, v, w, Pipeline[k]);
      RunPosition(c, next, v, w, k + 1);
      assert Done(w.throws, k) == Done(w.throws, k + 1);
      assert Run(c, s, v, w, k) == Run(c, next, v, w, k + 1);
      if k == StoreAt {
        assert next.storage == StoreOf(s) && next.position == s.position;
      } else if k == RestoreAt {
        assert next.position == Restored(c, v, s.storage, s.position);
      } else {
        assert next.storage == s.storage && next.position == s.position && StoreOf(next) == StoreOf(s);
      }
    }
  }

  /** No step of the pipeline throws. */
  predicate Smooth(w: World) {
    forall j :: 0 <= j < |Pipeline| ==> Pipeline[j] !in w.throws
  }

  /**
   * `onPREVIOUS` is committed exactly when the URL matched and no step threw,
   * and then holds the matched route with its parameters; otherwise it is
   * left as it was.
   */
  lemma CommitOnlyOnSuccess(c: Config, s: Nav, url: string, w: World)
    requires s.previous.Some? ==> "on" in s.previous.value.params
    ensures Transition(c, s, url, w).1 == Committed <==> Match(c.routes, url).Some? && Smooth(w)
    ensures Transition(c, s, url, w).1 == Committed ==>
      Transition(c, s, url, w).0.previous == Some(VisitOf(c, Match(c.routes, url).value, url))
    ensures Transition(c, s, url, w).1 != Committed ==> Transition(c, s, url, w).0.previous == s.previous
  {
    if Match(c.routes, url).Some? {
      RunThrown(c, s, VisitOf(c, Match(c.routes, url).value, url), w, 0);
    }
  }

  /**
   * The steps are entered in pipeline order: all of them on a commit, up to
   * and including the first that throws when one is caught, none on a fault.
   */
  lemma StepOrder(c: Config, s: Nav, url: string, w: World)
    requires s.previous.Some? ==> "on" in s.previous.value.params
    ensures Transition(c, s, url, w).1.Faulted? <==> Match(c.routes, url).None?
    ensures Transition(c, s, url, w).1.Faulted? ==> Transition(c, s, url, w).0.ran == s.ran
    ensures Transition(c, s, url, w).1.Caught? ==>
      var d := Done(w.throws, 0);
      d < |Pipeline| && Transition(c, s, url, w).1.at == Pipeline[d]
      && Transition(c, s, url, w).0.ran == s.ran + Pipeline[..d + 1]
    ensures Transition(c, s, url, w).1.Committed? ==> Transition(c, s, url, w).0.ran == s.ran + Pipeline
  {
    if Match(c.routes, url).Some? {
      var v := VisitOf(c, Match(c.routes, url).value, url);
      var run := Run(c, s, v, w, 0);
      var d, e := Done(w.throws, 0), Reached(w.throws, 0);
      assert run.1 == (if d < |Pipeline| then Some(Pipeline[d]) else None) by {
        RunThrown(c, s, v, w, 0);
      }
      assert run.0.ran == s.ran + Pipeline[..e] by {
        RunRan(c, s, v, w, 0);
        assert Pipeline[0..e] == Pipeline[..e];
      }
      var tr := Transition(c, s, url, w);
      if d < |Pipeline| {
        assert tr == (run.0, Caught(Pipeline[d]));
      } else {
        assert Pipeline[..e] == Pipeline;
        assert tr == (run.0.(previous := Some(v)), Committed);
      }
    }
  }

  /**
   * The steps that can throw at all.  `onAFFIX` catches and logs every error
   * of the callback it calls, so resolving the view, the `onBEFORE` guards,
   * `onLEAVE` and `onLOADED` never throw (a view that fails to resolve is
   * `undefined` and makes `onRENDERER` throw instead), and storing the
   * scroll offsets only reads the window and writes a plain field.
   */
  predicate MayThrow(step: Step) {
    step !in {Resolve, ScrollStore, Before, Leave, Loaded}
  }

  /** A world the program can meet: only steps that can throw do. */
  predicate Feasible(w: World) {
    forall step :: step in w.throws ==> MayThrow(step)
  }

  /**
   * In a feasible world an error is only ever caught from a step that can
   * throw: a failing guard, `onLEAVE` or `onLOADED` callback never cancels
   * the navigation.
   */
  lemma CaughtOnlyWhereThrowable(c: Config, s: Nav, url: string, w: World)
    requires s.previous.Some? ==> "on" in s.previous.value.params
    requires Feasible(w)
    ensures Transition(c, s, url, w).1.Caught? ==> MayThrow(Transition(c, s, url, w).1.at)
    ensures Transition(c, s, url, w).1.Caught? ==> Transition(c, s, url, w).1.at in w.throws
  {
    if Match(c.routes, url).Some? {
      RunThrown(c, s, VisitOf(c, Match(c.routes, url).value, url), w, 0);
    }
  }

  /**
   * An unmatched URL starts the navigation to `on404` and faults: nothing
   * else changes, and no step runs.
   */
  lemma NotFoundFaults(c: Config, s: Nav, url: string, w: World)
    requires s.previous.Some? ==> "on" in s.previous.value.params
    requires Match(c.routes, url).None?
    ensures Transition(c, s, url, w) == (s.(started := s.started + [BuildUrl(c.mode, c.root, c.notFound)]), Faulted)
  {
  }

  /**
   * A redirect starts its navigation but does not stop the current one:
   * with no step throwing, the current route is still committed.
   */
  lemma RedirectDoesNotStop(c: Config, s: Nav, url: string, w: World, i: nat)
    requires s.previous.Some? ==> "on" in s.previous.value.params
    requires Match(c.routes, url) == Some(i) && c.routes[i].redirects && Redirects(w.reply)
    requires Smooth(w)
    ensures Transition(c, s, url, w).1 == Committed
    ensures Transition(c, s, url, w).0.previous == Some(VisitOf(c, i, url))
    ensures Transition(c, s, url, w).0.started == s.started + [BuildUrl(c.mode, c.root, w.reply.on)]
  {
    var v := VisitOf(c, i, url);
    RunThrown(c, s, v, w, 0);
    RunStarted(c, s, v, w, 0);
  }

  /**
   * Scroll restoration round trip: leaving a page and arriving at a URL
   * with the same `on`, restoring on, returns the window to the offsets it
   * had when the navigation started, which are also what is stored.
   */
  lemma ScrollRoundTrip(c: Config, s: Nav, url: string, w: World, i: nat)
    requires s.previous.Some? && "on" in s.previous.value.params
    requires Match(c.routes, url) == Some(i) && RestoreSetting(c, c.routes[i]) == "ON"
    requires VisitOf(c, i, url).params["on"] == s.previous.value.params["on"]
    requires Smooth(w)
    ensures Transition(c, s, url, w).0.storage == Stored(s.position, s.previous.value.params["on"])
    ensures Transition(c, s, url, w).0.position == s.position
  {
    var v := VisitOf(c, i, url);
    RunThrown(c, s, v, w, 0);
    RunStorage(c, s, v, w, 0);
    RunPosition(c, s, v, w, 0);
  }

  /** Arriving at a different `on`, restoring on, scrolls to the top-left corner. */
  lemma ScrollToTop(c: Config, s: Nav, url: string, w: World, i: nat)
    requires s.previous.Some? && "on" in s.previous.value.params
    requires Match(c.routes, url) == Some(i) && RestoreSetting(c, c.routes[i]) == "ON"
    requires VisitOf(c, i, url).params["on"] != s.previous.value.params["on"]
    requires Smooth(w)
    ensures Transition(c, s, url, w).0.position == Position(0, 0)
  {
    var v := VisitOf(c, i, url);
    RunThrown(c, s, v, w, 0);
    RunPosition(c, s, v, w, 0);
  }

  /**
   * The stored scroll offsets are not rolled back: when a step after
   * `onSCROLLstore` throws, `onPREVIOUS` is kept but the storage already
   * holds the previous page's `on` and offsets.
   */
  lemma StorageKeptOnFailure(c: Config, s: Nav, url: string, w: World, i: nat)
    requires s.previous.Some? && "on" in s.previous.value.params
    requires Match(c.routes, url) == Some(i) && StoreAt < Done(w.throws, 0) < |Pipeline|
    ensures Transition(c, s, url, w).1 == Caught(Pipeline[Done(w.throws, 0)])
    ensures Transition(c, s, url, w).0.previous == s.previous
    ensures Transition(c, s, url, w).0.storage == Stored(s.position, s.previous.value.params["on"])
  {
    var v := VisitOf(c, i, url);
    RunThrown(c, s, v, w, 0);
    RunStorage(c, s, v, w, 0);
  }

  /** The constructor's options; `""` stands for an option left out (or falsy). */
  datatype Options = Options(root: string, notFound: string, mode: string, restore: string)

  /** `options.x || fallback`. */
  function Or(given: string, fallback: string): string {
    if given == "" then fallback else given
  }

  /** `AZRouter`: the router object and the navigation state it keeps. */
  class Navigator {
    const config: Config
    /** `onPREVIOUS`. */
    var previous: Option<Visit>
    /** `onSCROLL.STORAGE`. */
    var storage: Stored
    /** The window's scroll offsets. */
    var position: Position
    /** Navigations started through `navigateTo` while processing: redirects and the fallback to `on404`. */
    var started: seq<string>
    /** The steps entered so far, in order. */
    ghost var ran: seq<Step>

    ghost predicate Valid()
      reads this
    {
      previous.Some? ==> "on" in previous.value.params
    }

    ghost function State(): Nav
      reads this
    {
      Nav(previous, storage, position, started, ran)
    }

    /**
     * `new AZRouter(routes, options)`: the options with their defaults, an
     * empty storage, no previous visit, and then `init()` processes the URL
     * the window shows (`at` is the window's scroll offsets).
     */
    constructor (routes: seq<Route>, options: Options, url: string, at: Position, w: World)
      ensures config == Config(routes, Or(options.root, "/"), Or(options.notFound, "/404"),
                               Or(options.mode, "history"), Or(options.restore, "ON"))
      ensures Valid()
      ensures State() == Transition(config, Nav(None, Stored(Position(0, 0), ""), at, [], []), url, w).0
    {
      config := Config(routes, Or(options.root, "/"), Or(options.notFound, "/404"),
                       Or(options.mode, "history"), Or(options.restore, "ON"));
      previous := None;
      storage := Stored(Position(0, 0), "");
      position := at;
      started := [];
      ran := [];
      new;
      var _ := Process(url, w);
    }

    /** `onSCROLLstore(this.onPREVIOUS.PARAMS)`. */
    method StoreScroll()
      requires Valid()
      modifies this`storage
      ensures storage == StoreOf(old(State()))
    {
      if previous.Some? {
        storage := Stored(position, previous.value.params["on"]);
      }
    }

    /** `onREDIRECT(AFFIXES.onREDIRECT, PARAMS)`: a redirect starts a navigation and returns. */
    method RedirectIfAsked(v: Visit, w: World)
      modifies this`started
      ensures started == old(started) + RedirectTarget(config, v, w)
    {
      if v.route.redirects {
        var flag := if w.reply.redirect == "" then "OFF" else w.reply.redirect;
        if flag == "ON" && w.reply.on != "" {
          started := started + [BuildUrl(config.mode, config.root, w.reply.on)];
        }
      }
    }

    /** `onSCROLLY(AFFIXES.onSCROLL, PARAMS)`. */
    method RestoreScroll(v: Visit)
      requires "on" in v.params
      modifies this`position
      ensures position == Restored(config, v, storage, old(position))
    {
      var setting := if v.route.restore != "" then v.route.restore else config.restore;
      if setting == "ON" {
        if v.params["on"] == storage.on {
          position := storage.at;
        } else {
          position := Position(0, 0);
        }
      }
    }

    /**
     * `onPROCESS(url)`: match and extract, then enter the steps in order;
     * a throwing step ends the navigation with its error caught, and only
     * a navigation whose steps all completed commits `onPREVIOUS`.
     */
    method Process(url: string, w: World) returns (out: Outcome)
      requires Valid()
      modifies this
      ensures Valid()
      ensures (State(), out) == Transition(config, old(State()), url, w)
    {
      var found := Match(config.routes, url);
      if found.None? {
        started := started + [BuildUrl(config.mode, config.root, config.notFound)];
        return Faulted;
      }
      var v := VisitOf(config, found.value, url);
      var thrown := RunPipeline(v, w);
      if thrown.Some? {
        return Caught(thrown.value);
      }
      previous := Some(v);
      out := Committed;
    }

    /** The `try` block of `onPROCESS`: the steps awaited in order until one throws. */
    method RunPipeline(v: Visit, w: World) returns (thrown: Option<Step>)
      requires Valid() && Sound(State(), v)
      modifies this`storage, this`position, this`started, this`ran
      ensures Valid()
      ensures (State(), thrown) == Run(config, old(State()), v, w, 0)
    {
      ghost var s0 := State();
      var k := 0;
      while k < |Pipeline|
        invariant k <= |Pipeline| && Valid() && Sound(State(), v)
        invariant Run(config, s0, v, w, 0) == Run(config, State(), v, w, k)
        decreases |Pipeline| - k
      {
        var step := Pipeline[k];
        ghost var before := State();
        ran := ran + [step];
        if step in w.throws {
          assert Run(config, before, v, w, k) == (State(), Some(step));
          return Some(step);
        }
        RunStep(step, v, w);
        assert Run(config, before, v, w, k) == Run(config, State(), v, w, k + 1);
        k := k + 1;
      }
      thrown := None;
    }

    /** One step that did not throw: the three steps that touch the router's state do so. */
    method RunStep(step: Step, v: Visit, w: World)
      requires Valid() && Sound(State(), v)
      modifies this`storage, this`position, this`started
      ensures State() == Effect(config, old(State()), v, w, step)
    {
      match step {
        case ScrollStore => StoreScroll();
        case Redirect => RedirectIfAsked(v, w);
        case ScrollRestore => RestoreScroll(v);
        case _ =>
      }
    }

    /**
     * `navigateTo(url)`: the URL is rebuilt against the root and mode and
     * processed.  Pushing the history entry is not part of this model.
     */
    method NavigateTo(url: string, w: World) returns (out: Outcome)
      requires Valid()
      modifies this
      ensures Valid()
      ensures (State(), out) == Transition(config, old(State()), BuildUrl(config.mode, config.root, url), w)
    {
      out := Process(BuildUrl(config.mode, config.root, url), w);
    }
  }
}
