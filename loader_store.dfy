/** The namespaced store module that tracks active loaders: its state (a list
    of loader names, empty at registration), the `LOAD` and `END` mutations and
    the `isLoading`/`anyLoading` getters. The `load`/`end` actions that commit
    the mutations are modelled with the dispatches, in `LoaderPlugin.Apply`. */
module LoaderStore {
  import opened Wrappers
  import opened LoaderList

  /** The `LOAD` mutation on a state list: push the name, then `uniq`. */
  function LoadStep(active: seq<string>, loaderMessage: string): (r: seq<string>)
    ensures NoDup(r)
    ensures forall x :: x in r <==> x in active || x == loaderMessage
  {
    Uniq(active + [loaderMessage])
  }

  /** The `END` mutation on a state list: `uniq`, then filter the name out. */
  function EndStep(active: seq<string>, loaderMessage: string): (r: seq<string>)
    ensures NoDup(r)
    ensures forall x :: x in r <==> x in active && x != loaderMessage
  {
    WithoutNoDup(Uniq(active), loaderMessage);
    Without(Uniq(active), loaderMessage)
  }

  /** The `isLoading` getter: `indexOf(loaderMessage) > -1`. */
  function IsLoading(active: seq<string>, loaderMessage: string): (r: bool)
    ensures r <==> loaderMessage in active
  {
    IndexOf(active, loaderMessage) > -1
  }

  /** The `anyLoading` getter: the list is non-empty. */
  function AnyLoading(active: seq<string>): (r: bool)
    ensures r <==> exists m :: IsLoading(active, m)
  {
    if |active| > 0 then assert IsLoading(active, active[0]); true else false
  }

  /** The state of the registered module; each mutation reassigns its one field. */
  class LoadingModule {
    var activeLoaders: seq<string>

    /** The state is a set kept as a list: no name twice. */
    ghost predicate Valid()
      reads this
    {
      NoDup(activeLoaders)
    }

    /** Registration starts from `activeLoaders: []`. */
    constructor ()
      ensures Valid()
      ensures activeLoaders == []
    {
      activeLoaders := [];
    }

    /** `LOAD`: the list with the name pushed on, then replaced by its `uniq`. */
    method Load(loaderMessage: string)
      modifies this
      ensures Valid()
      ensures activeLoaders == LoadStep(old(activeLoaders), loaderMessage)
      ensures old(Valid()) ==>
        activeLoaders == if loaderMessage in old(activeLoaders) then old(activeLoaders) else old(activeLoaders) + [loaderMessage]
    {
      activeLoaders := activeLoaders + [loaderMessage];
      activeLoaders := Uniq(activeLoaders);
      assert activeLoaders == LoadStep(old(activeLoaders), loaderMessage);
      if old(Valid()) {
        LoadOnNoDup(old(activeLoaders), loaderMessage);
      }
    }

    /** `END`: replace the list by its `uniq` with the name filtered out. */
    method End(loaderMessage: string)
      modifies this
      ensures Valid()
      ensures activeLoaders == EndStep(old(activeLoaders), loaderMessage)
      ensures loaderMessage !in activeLoaders
      ensures forall x :: x in activeLoaders <==> x in old(activeLoaders) && x != loaderMessage
      ensures old(Valid()) && loaderMessage !in old(activeLoaders) ==> activeLoaders == old(activeLoaders)
    {
      activeLoaders := Without(Uniq(activeLoaders), loaderMessage);
      assert activeLoaders == EndStep(old(activeLoaders), loaderMessage);
      if old(Valid()) && loaderMessage !in old(activeLoaders) {
        EndAbsent(old(activeLoaders), loaderMessage);
      }
    }
  }

  // ------------------------------------------------------------- mutations

  /** A committed mutation and its payload, the loader name. */
  datatype Mutation = Load(name: string) | End(name: string)

  /** Commit one mutation to a state list. */
  function Commit(active: seq<string>, mutation: Mutation): seq<string> {
    match mutation
    case Load(m) => LoadStep(active, m)
    case End(m) => EndStep(active, m)
  }

  /** Commit a sequence of mutations, first to last. */
  function Run(active: seq<string>, mutations: seq<Mutation>): seq<string> {
    if mutations == [] then active
    else Commit(Run(active, mutations[..|mutations| - 1]), mutations[|mutations| - 1])
  }

  /** The last mutation in the sequence whose payload is `m`, if any. */
  function LastNaming(mutations: seq<Mutation>, m: string): (r: Option<Mutation>)
    ensures r.Some? ==> r.value in mutations && r.value.name == m
    ensures r.Some? ==>
      exists i :: 0 <= i < |mutations| && mutations[i] == r.value &&
        forall j :: i < j < |mutations| ==> mutations[j].name != m
    ensures r.None? <==> forall i :: 0 <= i < |mutations| ==> mutations[i].name != m
  {
    if mutations == [] then None
    else if mutations[|mutations| - 1].name == m then Some(mutations[|mutations| - 1])
    else
      var r := LastNaming(mutations[..|mutations| - 1], m);
      assert forall i :: 0 <= i < |mutations| - 1 ==> mutations[..|mutations| - 1][i] == mutations[i];
      r
  }

  // ------------------------------------------------------------------ LOAD

  /** `LOAD(m)` keeps the relative order of the names already present. */
  lemma LoadKeepsOrder(active: seq<string>, m: string)
    ensures SameOrder(active, LoadStep(active, m))
  {
    UniqOrder(active + [m]);
    UniqSnoc(active, m);
    forall x, y | x in active && y in active && x in LoadStep(active, m) && y in LoadStep(active, m)
      ensures IndexOf(LoadStep(active, m), x) < IndexOf(LoadStep(active, m), y) <==> IndexOf(active, x) < IndexOf(active, y)
    {
      IndexOfSnoc(active, m, x);
      IndexOfSnoc(active, m, y);
    }
  }

  /** On a duplicate-free list `LOAD(m)` appends `m` exactly when it was absent
      and otherwise changes nothing. */
  lemma LoadOnNoDup(active: seq<string>, m: string)
    requires NoDup(active)
    ensures LoadStep(active, m) == if m in active then active else active + [m]
  {
    UniqSnoc(active, m);
    UniqOfNoDup(active);
  }

  /** `LOAD(m); LOAD(m)` leaves the state `LOAD(m)` leaves. */
  lemma LoadIdempotent(active: seq<string>, m: string)
    ensures LoadStep(LoadStep(active, m), m) == LoadStep(active, m)
  {
    LoadOnNoDup(LoadStep(active, m), m);
  }

  // ------------------------------------------------------------------- END

  /** `END(m)` keeps the relative order of the names it retains. */
  lemma EndKeepsOrder(active: seq<string>, m: string)
    ensures SameOrder(active, EndStep(active, m))
  {
    UniqOrder(active);
    WithoutOrder(Uniq(active), m);
    SameOrderTrans(active, Uniq(active), EndStep(active, m));
  }

  /** Ending a name that is not present leaves a duplicate-free list unchanged. */
  lemma EndAbsent(active: seq<string>, m: string)
    requires NoDup(active) && m !in active
    ensures EndStep(active, m) == active
  {
    UniqOfNoDup(active);
    WithoutAbsent(active, m);
  }

  /** `END(m); END(m)` leaves the state `END(m)` leaves. */
  lemma EndIdempotent(active: seq<string>, m: string)
    ensures EndStep(EndStep(active, m), m) == EndStep(active, m)
  {
    EndAbsent(EndStep(active, m), m);
  }

  // ------------------------------------------------------------------ runs

  /** Committing mutations to a duplicate-free state keeps it duplicate-free. */
  lemma {:induction false} RunNoDup(active: seq<string>, mutations: seq<Mutation>)
    requires NoDup(active)
    ensures NoDup(Run(active, mutations))
  {
    if mutations != [] {
      RunNoDup(active, mutations[..|mutations| - 1]);
    }
  }

  /** After any sequence of mutations a name is active exactly when the last
      mutation naming it was a `LOAD`, or, when none names it, when it was active
      before. */
  lemma {:induction false} RunMembership(active: seq<string>, mutations: seq<Mutation>, m: string)
    ensures IsLoading(Run(active, mutations), m) <==>
      match LastNaming(mutations, m)
      case None => m in active
      case Some(last) => last.Load?
  {
    if mutations != [] {
      RunMembership(active, mutations[..|mutations| - 1], m);
    }
  }

  /** From the initial empty state: the state is duplicate-free, a name is
      active exactly when the last mutation naming it was a `LOAD`, and some
      loader is active exactly when some name was last loaded. */
  lemma FromInitialState(mutations: seq<Mutation>)
    ensures NoDup(Run([], mutations))
    ensures forall m :: IsLoading(Run([], mutations), m) <==> LastNaming(mutations, m) == Some(Load(m))
    ensures AnyLoading(Run([], mutations)) <==> exists m :: LastNaming(mutations, m) == Some(Load(m))
  {
    RunNoDup([], mutations);
    forall m ensures IsLoading(Run([], mutations), m) <==> LastNaming(mutations, m) == Some(Load(m)) {
      RunMembership([], mutations, m);
    }
  }
}
