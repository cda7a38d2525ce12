/** The plugin factory: the defaults it fills into its options, and the
    `startLoading` / `endLoading` helpers that dispatch the store module's
    `load` and `end` actions around an asynchronous callback. The callback's
    settlement is a parameter, and the helpers' effect is a trace of events. */
module LoaderPlugin {
  import opened Wrappers
  import opened LoaderStore

  /** The options object handed to the factory; `None` is an omitted field. */
  datatype Options = Options(moduleName: Option<string>, componentName: Option<string>, className: Option<string>)

  /** The options once the defaults are filled in. */
  datatype Config = Config(moduleName: string, componentName: string, className: string)

  const DefaultModuleName: string := "loading"
  const DefaultComponentName: string := "v-loading"
  const DefaultClassName: string := "v-loading"

  /** A field replaced by its default only when it is omitted (`=== void 0`);
      any given value, the empty string included, is kept. */
  function OrDefault(given: Option<string>, fallback: string): string {
    match given
    case None => fallback
    case Some(v) => v
  }

  /** The defaults the factory fills in: omitted fields take `loading`,
      `v-loading` and `v-loading`; given fields are kept as they are. */
  function Resolve(o: Options): (c: Config)
    ensures c.moduleName == if o.moduleName.None? then "loading" else o.moduleName.value
    ensures c.componentName == if o.componentName.None? then "v-loading" else o.componentName.value
    ensures c.className == if o.className.None? then "v-loading" else o.className.value
  {
    Config(OrDefault(o.moduleName, DefaultModuleName),
           OrDefault(o.componentName, DefaultComponentName),
           OrDefault(o.className, DefaultClassName))
  }

  // ------------------------------------------------------------ dispatches

  /** The action type of the module's `load` action: namespaced under the
      module name, and never the type of its `end` action. */
  function LoadAction(c: Config): (t: string)
    ensures |t| > |c.moduleName| && t[..|c.moduleName|] == c.moduleName
    ensures t != c.moduleName + "/end"
  {
    assert |c.moduleName + "/load"| != |c.moduleName + "/end"|;
    c.moduleName + "/load"
  }

  /** The action type of the module's `end` action: namespaced under the
      module name, and never the type of its `load` action. */
  function EndAction(c: Config): (t: string)
    ensures |t| > |c.moduleName| && t[..|c.moduleName|] == c.moduleName
    ensures t != c.moduleName + "/load"
  {
    assert |c.moduleName + "/load"| != |c.moduleName + "/end"|;
    c.moduleName + "/end"
  }

  /** What a helper does, in order: dispatch an action (type, payload, whether
      the `root` option is set), or run the callback. */
  datatype Event = Dispatched(actionType: string, payload: string, root: bool) | CallbackRun

  /** How the callback's promise settles. */
  datatype Settled<R, E> = Fulfilled(response: R) | Rejected(reason: E)

  /** What `startLoading` does and how the promise it returns settles. */
  datatype Bracketed<R, E> = Bracketed(trace: seq<Event>, settled: Settled<R, E>)

  /** The store module under `moduleName` receiving one event: its `load` and
      `end` actions commit `LOAD` and `END`; other events leave it alone. */
  function Apply(moduleName: string, active: seq<string>, e: Event): (r: seq<string>)
    ensures e.CallbackRun? ==> r == active
    ensures e.Dispatched? && e.actionType == moduleName + "/load" ==> e.payload in r
    ensures e.Dispatched? && e.actionType == moduleName + "/end" ==> e.payload !in r
    ensures e.Dispatched? && e.actionType != moduleName + "/load" && e.actionType != moduleName + "/end" ==> r == active
    ensures e.Dispatched? ==> forall x :: x != e.payload ==> (x in r <==> x in active)
  {
    assert |moduleName + "/load"| != |moduleName + "/end"|;
    match e
    case CallbackRun => active
    case Dispatched(t, payload, _) =>
      if t == moduleName + "/load" then LoadStep(active, payload)
      else if t == moduleName + "/end" then EndStep(active, payload)
      else active
  }

  /** The store module receiving a trace of events, first to last. */
  function Replay(moduleName: string, active: seq<string>, trace: seq<Event>): seq<string>
    decreases |trace|
  {
    if trace == [] then active
    else Replay(moduleName, Apply(moduleName, active, trace[0]), trace[1..])
  }

  /** `endLoading(dispatcher, loaderMessage)`. */
  function EndLoading(c: Config, loaderMessage: string): (trace: seq<Event>)
    ensures |trace| == 1 && trace[0].Dispatched?
    ensures trace[0].actionType == c.moduleName + "/end" && trace[0].payload == loaderMessage && trace[0].root
    ensures forall s :: !IsLoading(Replay(c.moduleName, s, trace), loaderMessage)
    ensures forall s, x :: x != loaderMessage ==> (x in Replay(c.moduleName, s, trace) <==> x in s)
  {
    var trace := [Dispatched(EndAction(c), loaderMessage, true)];
    assert forall s :: Replay(c.moduleName, s, trace) == Apply(c.moduleName, s, trace[0]);
    trace
  }

  /** `startLoading(dispatcher, loaderMessage, callback)`: dispatch `load`, run
      the callback, and only when its promise fulfils dispatch `end`; the
      returned promise settles as the callback's did. */
  function StartLoading<R, E>(c: Config, loaderMessage: string, outcome: Settled<R, E>): (r: Bracketed<R, E>)
    ensures r.settled == outcome
    ensures |r.trace| >= 2 && r.trace[0] == Dispatched(LoadAction(c), loaderMessage, true) && r.trace[1] == CallbackRun
    ensures r.trace[2..] == if outcome.Fulfilled? then EndLoading(c, loaderMessage) else []
  {
    var before := [Dispatched(LoadAction(c), loaderMessage, true), CallbackRun];
    match outcome
    case Fulfilled(_) => Bracketed(before + EndLoading(c, loaderMessage), outcome)
    case Rejected(_) => Bracketed(before, outcome)
  }

  /** When the callback starts the loader is active, whatever the state before. */
  lemma ActiveWhileCallbackRuns<R, E>(c: Config, active: seq<string>, loaderMessage: string, outcome: Settled<R, E>)
    ensures IsLoading(Replay(c.moduleName, active, StartLoading(c, loaderMessage, outcome).trace[..2]), loaderMessage)
  {
    var r := StartLoading(c, loaderMessage, outcome);
    var loaded := LoadStep(active, loaderMessage);
    assert Apply(c.moduleName, active, r.trace[0]) == loaded;
    assert r.trace[..2][1..] == [CallbackRun];
    assert Replay(c.moduleName, loaded, [CallbackRun]) == loaded;
  }

  /** The helper's effect on the store module, whatever the callback itself
      dispatched while it ran (`during`). When the callback fulfils, the loader is
      inactive afterwards and every other name is as the callback left it. When
      it rejects, `end` is never dispatched: the state is what the callback left,
      so a loader nobody else ended stays active. Either way the promise settles
      as the callback's did. */
  lemma StartLoadingOnStore<R, E>(c: Config, active: seq<string>, loaderMessage: string,
                                  outcome: Settled<R, E>, during: seq<Event>)
    ensures var r := StartLoading(c, loaderMessage, outcome);
            var mid := Replay(c.moduleName, Replay(c.moduleName, active, r.trace[..2]), during);
            var final := Replay(c.moduleName, mid, r.trace[2..]);
            && r.settled == outcome
            && (outcome.Fulfilled? ==> !IsLoading(final, loaderMessage))
            && (outcome.Fulfilled? ==> forall x :: x != loaderMessage ==> (x in final <==> x in mid))
            && (outcome.Rejected? ==> final == mid)
            && (outcome.Rejected? && during == [] ==> IsLoading(final, loaderMessage))
  {
    var r := StartLoading(c, loaderMessage, outcome);
    var mid := Replay(c.moduleName, Replay(c.moduleName, active, r.trace[..2]), during);
    ActiveWhileCallbackRuns(c, active, loaderMessage, outcome);
    if outcome.Fulfilled? {
      assert |EndAction(c)| != |c.moduleName + "/load"|;
      assert Replay(c.moduleName, mid, r.trace[2..]) == EndStep(mid, loaderMessage);
    }
  }
}
