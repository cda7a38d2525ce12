/** The decision logic of the loading component: its `isLoading` and
    `anyLoading` computed properties, which fail when no store is installed, and
    its `status`, which picks between the `when` prop, the `loader` prop's state
    and the any-loading flag. */
module LoaderComponent {
  import opened Wrappers
  import opened LoaderStore

  /** A component prop as JavaScript hands it over (numbers are integers here). */
  datatype Prop = Undefined | Null | Bool(b: bool) | Number(n: int) | Text(s: string)

  /** JavaScript truthiness of a prop: everything but the falsy values
      `undefined`, `null`, `false`, `0` and `""`. */
  predicate Truthy(p: Prop)
    ensures Truthy(p) <==> p !in {Undefined, Null, Bool(false), Number(0), Text("")}
  {
    match p
    case Undefined => false
    case Null => false
    case Bool(b) => b
    case Number(n) => n != 0
    case Text(s) => s != ""
  }

  /** The message thrown when the component finds no store. */
  const NotInitialized: string := "Vuex not initialized."

  /** A value, or the message of the error thrown instead. */
  datatype Result<T> = Ok(value: T) | Err(message: string)

  /** The `isLoading` computed applied to the `loader` prop. `store` is the
      installed store's `activeLoaders`, `None` when there is no store. A loader
      that is not a string never equals a stored name. */
  function LookupIsLoading(store: Option<seq<string>>, loader: Prop): (r: Result<bool>)
    ensures r.Err? <==> store.None?
    ensures r.Err? ==> r.message == NotInitialized
    ensures r.Ok? ==> (r.value <==> loader.Text? && loader.s in store.value)
  {
    match store
    case None => Err(NotInitialized)
    case Some(active) =>
      match loader
      case Text(s) => Ok(IsLoading(active, s))
      case _ => Ok(false)
  }

  /** The `anyLoading` computed. */
  function LookupAnyLoading(store: Option<seq<string>>): (r: Result<bool>)
    ensures r.Err? <==> store.None?
    ensures r.Err? ==> r.message == NotInitialized
    ensures r.Ok? ==> (r.value <==> exists m :: m in store.value)
  {
    match store
    case None => Err(NotInitialized)
    case Some(active) => Ok(AnyLoading(active))
  }

  /** The `status` computed: a truthy `when` is returned as it is; otherwise a
      truthy `loader` yields whether that loader is active; otherwise the result
      is whether any loader is active. The store is consulted only in the last
      two cases, so only they can fail. */
  function Status(when: Prop, loader: Prop, store: Option<seq<string>>): (r: Result<Prop>)
    ensures Truthy(when) ==> r == Ok(when)
    ensures r.Err? <==> !Truthy(when) && store.None?
    ensures r.Err? ==> r.message == NotInitialized
    ensures r.Ok? && !Truthy(when) ==> r.value.Bool?
    ensures r.Ok? ==>
      (Truthy(r.value) <==>
        || Truthy(when)
        || (store.Some? && Truthy(loader) && loader.Text? && loader.s in store.value)
        || (store.Some? && !Truthy(loader) && store.value != []))
  {
    if Truthy(when) then Ok(when)
    else if Truthy(loader) then
      match LookupIsLoading(store, loader)
      case Ok(b) => Ok(Bool(b))
      case Err(e) => Err(e)
    else
      match LookupAnyLoading(store)
      case Ok(b) => Ok(Bool(b))
      case Err(e) => Err(e)
  }

  /** An empty-string `loader` is falsy, so the component then shows whether any
      loader is active, even when the empty name is itself active. */
  lemma EmptyLoaderFallsBack(when: Prop, active: seq<string>)
    requires !Truthy(when)
    ensures Status(when, Text(""), Some(active)) == Ok(Bool(active != []))
  {
  }
}
