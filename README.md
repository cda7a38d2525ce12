# vuex-loading: the loader-tracking core in Dafny

vuex-loading is a Vue plugin. It registers a namespaced Vuex store module
that records which named "loaders" are active. It also provides a component
that shows a spinner while a loader is active, and helpers that bracket an
asynchronous callback with `load` and `end` dispatches. This project models
that core and proves its properties. The core is:

- `LoaderList` (`loader_list.dfy`): `indexOf` under strict equality and the
  `uniq` helper. `uniq` is a filter that keeps an element exactly at the index
  `indexOf` reports for it. The module also has the filter that drops one name.
  For these it proves: no duplicates, the same elements as the input,
  first-occurrence order, and idempotence.
- `LoaderStore` (`loader_store.dfy`): the store module's state
  (`activeLoaders`, empty at registration) as the class `LoadingModule`. Its
  `Load` and `End` methods reassign the field as the `LOAD` and `END` mutations
  do. `LoadStep` and `EndStep` are the same mutations as functions on lists.
  The module also has the `isLoading` and `anyLoading` getters, and `Run`, which
  commits a sequence of mutations. Lemmas cover any sequence of mutations.
- `LoaderComponent` (`loader_component.dfy`): the component's `isLoading` and
  `anyLoading` computed properties, which throw `Vuex not initialized.` when
  no store is installed, and its `status` precedence.
- `LoaderPlugin` (`loader_plugin.dfy`): the option defaults of
  `createVuexLoader`, and the `startLoading`/`endLoading` helpers. The helpers
  are modelled as a trace of events: dispatches, plus the point where the
  callback runs. The callback's settlement is a parameter.
- `Wrappers` (`wrappers.dfy`): the `Option` type shared by the other modules.

Things the code does that the model keeps as written:
- `startLoading` dispatches `end` only when the callback's promise fulfils. On
  rejection the loader stays active unless something else ends it
  (`LoaderPlugin.StartLoadingOnStore`).
- The options are named `moduleName`, `componentName` and `className`. A
  default replaces a field only when it is `undefined`: an empty string is kept.
- A missing store is noticed only when the component's computed properties
  run, not when the plugin is set up.
- An empty-string `loader` prop is falsy, so `status` falls back to
  `anyLoading`.

## Model

| member | source | states |
|---|---|---|
| `LoaderList.IndexOf` | dist/vuex-loading.js:29 | the result is -1 exactly when the name is absent; otherwise it is a position holding the name with no earlier occurrence |
| `LoaderList.UniqSnoc` | dist/vuex-loading.js:28-30 | `uniq` of a list with one more element at the end is `uniq` of the list, plus that element exactly when it did not occur before |
| `LoaderList.Uniq` | dist/vuex-loading.js:28-30 | `uniq` returns a list without duplicates that holds exactly the input's elements; its order is stated by `UniqOrder`, its step on an appended element by `UniqSnoc` |
| `LoaderList.KeepFirstElements` | dist/vuex-loading.js:29 | the `filter` over the first `n` positions keeps one copy of each name those positions hold, and no other name |
| `LoaderList.UniqOrder` | dist/vuex-loading.js:28-30 | `uniq` keeps elements in the order of their first occurrence in the input |
| `LoaderList.UniqOfNoDup` | dist/vuex-loading.js:28-30 | on a duplicate-free list `uniq` is the identity |
| `LoaderList.UniqIdempotent` | dist/vuex-loading.js:28-30 | `uniq(uniq(s)) == uniq(s)` |
| `LoaderList.WithoutNoDup` | dist/vuex-loading.js:102 | filtering a duplicate-free list leaves it duplicate-free |
| `LoaderList.WithoutAbsent` | dist/vuex-loading.js:102 | filtering out a name that does not occur changes nothing |
| `LoaderList.WithoutOrder` | dist/vuex-loading.js:102 | the filter keeps the relative order of what it retains |
| `LoaderList.Without` | dist/vuex-loading.js:102 | `filter(p => p !== m)` drops every copy of `m` and keeps every other element |
| `LoaderStore.LoadStep` | dist/vuex-loading.js:98-100 | after `LOAD(m)` the list has no duplicates and holds exactly the old names plus `m` |
| `LoaderStore.EndStep` | dist/vuex-loading.js:101-102 | after `END(m)` the list has no duplicates and holds exactly the old names other than `m` |
| `LoaderStore.IsLoading` | dist/vuex-loading.js:83 | `isLoading(m)` is true exactly when `m` is in `activeLoaders` |
| `LoaderStore.AnyLoading` | dist/vuex-loading.js:84 | `anyLoading` is true exactly when some name is loading |
| `LoaderStore.LoadingModule.constructor` | dist/vuex-loading.js:79-81 | the registered state starts as the empty list, which is duplicate-free |
| `LoaderStore.LoadingModule.Load` | dist/vuex-loading.js:98-100 | the field becomes `uniq` of the pushed list. The new list is duplicate-free, and on a duplicate-free list `m` is appended exactly when it was absent; otherwise the list is unchanged |
| `LoaderStore.LoadingModule.End` | dist/vuex-loading.js:101-102 | the field becomes the deduplicated list without `m`: `m` is absent, every other name stays, and ending an absent name leaves a duplicate-free list unchanged |
| `LoaderStore.LoadKeepsOrder` | dist/vuex-loading.js:98-100 | `LOAD(m)` keeps the relative order of the names already present |
| `LoaderStore.LoadOnNoDup` | dist/vuex-loading.js:98-100 | on a duplicate-free list `LOAD(m)` appends `m` exactly when it was absent, and otherwise changes nothing |
| `LoaderStore.LoadIdempotent` | dist/vuex-loading.js:98-100 | `LOAD(m); LOAD(m)` gives the same state as `LOAD(m)` |
| `LoaderStore.EndKeepsOrder` | dist/vuex-loading.js:101-102 | `END(m)` keeps the relative order of the names it retains |
| `LoaderStore.EndAbsent` | dist/vuex-loading.js:101-102 | ending a name that is not present leaves a duplicate-free list unchanged |
| `LoaderStore.EndIdempotent` | dist/vuex-loading.js:101-102 | `END(m); END(m)` gives the same state as `END(m)` |
| `LoaderStore.LastNaming` | dist/vuex-loading.js:98-103 | the mutation it returns names `m`, and no later mutation names `m`; it returns none exactly when no mutation names `m` |
| `LoaderStore.RunNoDup` | dist/vuex-loading.js:98-103 | any sequence of mutations keeps a duplicate-free state duplicate-free |
| `LoaderStore.RunMembership` | dist/vuex-loading.js:98-103 | after any sequence of mutations, `m` is loading exactly when the last mutation naming `m` was `LOAD`. When no mutation names `m`, it is loading exactly when it was loading before |
| `LoaderStore.FromInitialState` | dist/vuex-loading.js:79-84 | from the empty initial state: no duplicates; `m` is loading exactly when the last mutation naming it was `LOAD`; something is loading exactly when some name was last loaded |
| `LoaderComponent.Truthy` | dist/vuex-loading.js:62-65 | the `if (this.when)` / `if (this.loader)` test: a prop is truthy exactly when it is none of `undefined`, `null`, `false`, `0`, `""` |
| `LoaderComponent.LookupIsLoading` | dist/vuex-loading.js:47-53 | without a store the lookup fails with `Vuex not initialized.`; otherwise it answers whether the `loader` prop is an active name |
| `LoaderComponent.LookupAnyLoading` | dist/vuex-loading.js:54-60 | without a store the lookup fails with `Vuex not initialized.`; otherwise it answers whether any name is active |
| `LoaderComponent.Status` | dist/vuex-loading.js:61-69 | a truthy `when` is returned as it is; otherwise the result is a boolean or the not-initialized error, and the error happens exactly when there is no store. The result is truthy exactly when `when` is truthy, or a truthy `loader` is active, or there is no truthy `loader` and some name is active |
| `LoaderComponent.EmptyLoaderFallsBack` | dist/vuex-loading.js:61-69 | with `loader` set to the empty string, `status` is whether any loader is active |
| `LoaderPlugin.Resolve` | dist/vuex-loading.js:137-139 | omitted `moduleName`, `componentName` and `className` become `loading`, `v-loading` and `v-loading`; given values, the empty string included, are kept |
| `LoaderPlugin.LoadAction` | dist/vuex-loading.js:148 | the `load` action type is namespaced under the module name and never equals the `end` action type |
| `LoaderPlugin.EndAction` | dist/vuex-loading.js:155 | the `end` action type is namespaced under the module name and never equals the `load` action type |
| `LoaderPlugin.Apply` | dist/vuex-loading.js:86-96 | a `moduleName + "/load"` dispatch makes its payload active, a `moduleName + "/end"` dispatch makes it inactive, any other event changes nothing, and no dispatch changes a name other than its payload |
| `LoaderPlugin.EndLoading` | dist/vuex-loading.js:154-156 | exactly one dispatch: `moduleName + "/end"` with the loader as payload and `root: true`; from any state it leaves the loader inactive and every other name as it was |
| `LoaderPlugin.StartLoading` | dist/vuex-loading.js:145-153 | `moduleName + "/load"` is dispatched first (with `root: true`), then the callback runs. `moduleName + "/end"` follows exactly when the callback fulfils. The returned promise settles as the callback's did |
| `LoaderPlugin.ActiveWhileCallbackRuns` | dist/vuex-loading.js:145-149 | when the callback starts, the loader is active, whatever the state before |
| `LoaderPlugin.StartLoadingOnStore` | dist/vuex-loading.js:86-96 | through the `load`/`end` actions, whatever the callback dispatches meanwhile: a fulfilled callback leaves the loader inactive and every other name as the callback left it; a rejected one dispatches nothing more, so an otherwise untouched loader stays active |

## Left out

- The UMD wrapper and the `require` of the spinner components: module loading and assets.
- The component's template and its `message`, `height` and `width` props: presentation only.
- `store.registerModule`, the namespaced getter lookup, and the `$startLoading`, `$endLoading`, `$isLoading`, `$anyLoading` and `Vue.component` registrations in the installer: thin wrappers over Vuex and Vue internals that are not part of this model.
- Vue reactivity, re-rendering and the caching of computed properties: these belong to the host framework.
- LoaderStore.LoadingModule.Load: the `push` onto the old array happens in place, so anyone holding that array sees the pushed copy until the field is reassigned. The model assigns a new list value, so that aliasing is not captured.
- LoaderPlugin.StartLoading: the promise is a settlement value and the dispatches are an event trace. Real asynchrony is not modelled, including a callback that throws before returning a promise or returns a non-promise. Neither is calling the helper with `this` unbound, which makes `this$1.endLoading` throw inside the `then`.
- LoaderPlugin.Apply: an action type the module does not define is treated as a no-op. Vuex's own handling of that case (it reports an error) is not part of this model.
- LoaderComponent.Prop: JavaScript values are limited to undefined, null, booleans, integers and strings. Floating-point numbers, `NaN` and objects are not modelled, and neither are loader names that are not strings.
- LoaderComponent.LookupIsLoading: a store that exists but has no registered module (so its getter is undefined) is not modelled; the code would then throw a `TypeError`.
- LoaderPlugin.Resolve: `createVuexLoader` called with no options object (which throws when it reads `ref.moduleName`), and a field set to `null` (kept, since only `undefined` is defaulted), are not modelled; `Option` has no null.
