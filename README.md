# XAMLMarkupExtensions: weak-reference bookkeeping, modelled in Dafny

XAMLMarkupExtensions lets a markup extension keep its value up to date. The
extension remembers, without keeping them alive, the target objects and
properties it was applied to. It also tells the other extensions in a chain
when an endpoint is reached. This project models that bookkeeping and proves
properties of it:

- **ObjectDependencyManager**: the process-wide registry that keeps a holder
  object alive while one of the objects it depends on is alive. Its
  operations are `AddObjectDependency` and `CleanUp`, the sweep that drops
  dead handles and holders.
- **WeakReferenceKey**: a weak reference used as a dictionary key. It has a
  hash code frozen at construction and an equality that compares the current
  targets.
- **TargetObjectsList** and its older twin **TargetObjectsDictionary**. Each is
  a primary map from weak handles to property bindings, a hash-code index for
  finding an object's handle, the subset of targets that are nested
  extensions, and a queue of handles found dead during enumeration. Their
  shared state and its invariant live in the module `TargetIndex`.
- **ListenersList**: weakly held listeners, each at most once, indexed by hash
  code.
- **NestedMarkupExtension**: each extension's `targetObjects`, `IsConnected`,
  `GetTargetObjectsAndProperties`, the target-registration block of
  `ProvideValue`, and `Dispose`. The static weak listener list
  `EndpointReachedEvent` comes with its `Invoke`, `AddListener` and
  `RemoveListener`.
- **TargetInfo** and **TargetPath**: the value describing one target, and the
  stack of steps from an extension down to an endpoint.
- **CatExtension**: the `FormatOutput` loop that substitutes items for the
  `{i}` tags of a format string, and the `Format` setter.

How the model works:

- Objects are Dafny objects, so Dafny's `==` on them is .NET reference
  equality.
- Garbage collection is a parameter. Every operation that reads
  `WeakReference.Target` receives the set `alive` of objects not yet
  collected.
- An object's `GetHashCode()` is the constant field `hash` of `Obj`. The
  bucket lookups (`TargetObjectsList.TargetObjectsList.TryFindKey`,
  `ListenersList.FindSpec`, the duplicate check of
  `ListenersList.ListenersList.AddListener`) and
  `WeakReferenceKey.LiveEqualKeysShareHash` hold only for objects whose hash
  code does not change while they are registered. The default identity hash
  has that property, and so does `DependencyObject`, which seals
  `GetHashCode`.
- Where the source updates collections in place, the model is a class. Its
  fields are the collections (`map`, `seq`, `set`), and each method's
  postcondition ties the new state to a pure function of the old state.
  Lemmas then prove the invariants and properties of those functions.
- Exceptions the code throws are modelled as error results (`Result`,
  `Outcome`), including a dictionary indexer's `KeyNotFoundException`.
- A dereference of `null` that can only crash is a precondition.

## Model

| member | source | states |
|---|---|---|
| ObjectDependencyManager.Swept | src/Base/ObjectDependencyManager.cs:139-182 | a full sweep only removes holders; a surviving holder keeps exactly its live handles; a holder with handles survives iff one of them is live |
| ObjectDependencyManager.DeadLivePartition | src/Base/ObjectDependencyManager.cs:151-171 | removing the dead handles leaves the live ones; a holder is kept iff it has a live handle |
| ObjectDependencyManager.SweepDropsHolderIffAllDead | src/Base/ObjectDependencyManager.cs:158-164 | a registered holder leaves the registry iff every one of its handles is dead |
| ObjectDependencyManager.SweepPrunesExactlyDead | src/Base/ObjectDependencyManager.cs:165-171 | a surviving holder loses exactly its dead handles; one without dead handles is untouched |
| ObjectDependencyManager.SweepPreservesNonEmpty | src/Base/ObjectDependencyManager.cs:158-171 | no holder is ever left with an empty handle set |
| ObjectDependencyManager.SweepIdempotent | src/Base/ObjectDependencyManager.cs:124-182 | sweeping twice with the same liveness is sweeping once |
| ObjectDependencyManager.RegisteredSpec | src/Base/ObjectDependencyManager.cs:82-102 | registration keeps handle sets non-empty, records the handle, leaves other holders alone, and changes nothing when not new |
| ObjectDependencyManager.SecondRegistrationIsNotNew | src/Base/ObjectDependencyManager.cs:56-106 | registering the same live handle again reports `false` and leaves the registry as its own sweep left it |
| ObjectDependencyManager.HandlesAreDistinctByIdentity | src/Base/ObjectDependencyManager.cs:94-101 | a second handle to the same referent is a new registration and grows the set by one (hash sets of `WeakReference` compare identity) |
| ObjectDependencyManager.ObjectDependencyManager.constructor | src/Base/ObjectDependencyManager.cs:33-36 | the registry starts empty |
| ObjectDependencyManager.ObjectDependencyManager.AddObjectDependency | src/Base/ObjectDependencyManager.cs:56-106 | sweeps first; then throws `ArgumentNullException`, `ArgumentException` or `InvalidOperationException` in the code's order, leaving the swept registry; otherwise registers the handle and returns whether it was new |
| ObjectDependencyManager.ObjectDependencyManager.CleanUpAll | src/Base/ObjectDependencyManager.cs:111-115 | `CleanUp()` is the full sweep |
| ObjectDependencyManager.ObjectDependencyManager.CleanUp | src/Base/ObjectDependencyManager.cs:124-182 | with a holder: removes its entry regardless of liveness, or fails with "Key was not found!"; with `null`: the full sweep |
| ObjectDependencyManager.ObjectDependencyManager.Sweep | src/Base/ObjectDependencyManager.cs:139-182 | the two-phase loop (mark holders to remove, prune the others, then remove marked ones) produces the swept registry |
| ObjectDependencyManager.ObjectDependencyManager.MarkOrPrune | src/Base/ObjectDependencyManager.cs:151-175 | the first loop keeps every holder; it marks exactly the holders whose handles are all dead and leaves each other holder with its handles minus the dead ones |
| ObjectDependencyManager.ObjectDependencyManager.RemoveKeys | src/Base/ObjectDependencyManager.cs:177-181 | exactly the marked holders are removed; the others keep their handles |
| ObjectDependencyManager.SweepHolder | src/Base/ObjectDependencyManager.cs:151-174 | a holder is marked for removal iff the sweep drops it; otherwise it keeps its handles minus the dead ones |
| ObjectDependencyManager.CollectDead | src/Base/ObjectDependencyManager.cs:151-156 | the dead handles of one holder, each once |
| WeakReferenceKey.WeakReferenceKey.constructor | src/Base/WeakReferenceKey.cs:21-24 | the key refers to its target and freezes the target's hash code |
| WeakReferenceKey.Create | src/Base/WeakReferenceKey.cs:21-24 | a `null` target fails with a null dereference; otherwise a fresh key over the target with its hash |
| WeakReferenceKey.EqualsReflexive | src/Base/WeakReferenceKey.cs:27-33 | a key equals itself, even once its target is gone |
| WeakReferenceKey.EqualsRejectsNullAndOtherTypes | src/Base/WeakReferenceKey.cs:27-33 | `null` and objects of another run-time type never equal a key |
| WeakReferenceKey.EqualsIffSameTarget | src/Base/WeakReferenceKey.cs:27-51 | two keys are equal iff their current targets are the same reference; equality is symmetric |
| WeakReferenceKey.DeadKeysAreEqual | src/Base/WeakReferenceKey.cs:48-51 | two keys whose targets are both collected are equal |
| WeakReferenceKey.LiveEqualKeysShareHash | src/Base/WeakReferenceKey.cs:36-51 | keys equal while their target is alive have equal hash codes |
| WeakReferenceKey.DeadKeysBreakHashContract | src/Base/WeakReferenceKey.cs:36-51 | two collected keys exist that are equal but have different hash codes |
| WeakReferenceKey.CorrectedEqualsRespectsHash | src/Base/WeakReferenceKey.cs:36-51 | under the corrected equality, equal keys always hash equally, and equality is reflexive and symmetric |
| TargetInfos.EqualsIffSameTriple | XAMLMarkupExtensions/Base/INestedMarkupExtension.cs:58-75 | `Equals` holds exactly for a `TargetInfo` with the same object, property (by reference) and index |
| TargetInfos.EqualsIgnoresPropertyType | XAMLMarkupExtensions/Base/INestedMarkupExtension.cs:58-75 | the property type plays no part in equality |
| TargetInfos.EqualsReflexiveSymmetric | XAMLMarkupExtensions/Base/INestedMarkupExtension.cs:58-75 | equality is reflexive and symmetric |
| TargetInfos.EqualInfosHashEqually | XAMLMarkupExtensions/Base/INestedMarkupExtension.cs:81-86 | equal infos have equal hash codes, whatever the tuple's hash combiner |
| TargetInfos.EndpointIffNotNested | XAMLMarkupExtensions/Base/INestedMarkupExtension.cs:51 | an info is an endpoint iff its target object is not a nested markup extension |
| TargetPaths.Pop | XAMLMarkupExtensions/Base/INestedMarkupExtension.cs:128 | a step pops the top of a non-empty stack, or yields the endpoint and leaves the empty stack |
| TargetPaths.PushThenPop | XAMLMarkupExtensions/Base/INestedMarkupExtension.cs:122-128 | `AddStep(x)` then `GetNextStep()` returns `x` and restores the stack |
| TargetPaths.DrainIsLifo | XAMLMarkupExtensions/Base/INestedMarkupExtension.cs:122-128 | steps come back in reverse order of their pushing |
| TargetPaths.DrainEmpty | XAMLMarkupExtensions/Base/INestedMarkupExtension.cs:128 | once the stack is empty every step is the endpoint |
| TargetPaths.TargetPath.constructor | XAMLMarkupExtensions/Base/INestedMarkupExtension.cs:140-147 | a new path has the given endpoint and no steps |
| TargetPaths.TargetPath.AddStep | XAMLMarkupExtensions/Base/INestedMarkupExtension.cs:122 | pushes the info |
| TargetPaths.TargetPath.GetNextStep | XAMLMarkupExtensions/Base/INestedMarkupExtension.cs:128 | pops the top or returns the endpoint; returns what `ShowNextStep` showed before |
| TargetPaths.TargetPath.ShowNextStep | XAMLMarkupExtensions/Base/INestedMarkupExtension.cs:134 | the top of the stack (one of its steps) or, when empty, the endpoint; nothing changes |
| TargetPaths.Create | XAMLMarkupExtensions/Base/INestedMarkupExtension.cs:140-147 | a non-endpoint is refused with `ArgumentException`; otherwise a path over it with no steps |
| TargetIndex.EmptyValid | src/Base/TargetObjectsList.cs:26-39 | the empty collections satisfy the invariant |
| TargetIndex.LookupSound | src/Base/TargetObjectsList.cs:135-142 | a handle `TryFindKey` finds is a key whose live target is the object |
| TargetIndex.LookupComplete | src/Base/TargetObjectsList.cs:135-142 | when every key is in its hash bucket, `TryFindKey` misses only objects no key targets |
| TargetIndex.ConnectedSpec | src/Base/TargetObjectsList.cs:94-102 | `IsConnected` implies some key targeting the object records the property; the converse holds when no two keys share a live target |
| TargetIndex.AddTargetPreserves | src/Base/TargetObjectsList.cs:57-71 | adding a new handle keeps the invariant and adds exactly that key with no properties |
| TargetIndex.SetPropertiesPreserves | src/Base/TargetObjectsList.cs:80-87 | changing a key's property set leaves the invariant alone |
| TargetIndex.WithPropertyIdempotent | src/Base/TargetObjectsList.cs:80-87 | a property added is recorded; adding it twice is adding it once |
| TargetIndex.RemoveTargetPreserves | src/Base/TargetObjectsList.cs:224-235 | removing a handle keeps the invariant, removes just that key and leaves every other entry as it was |
| TargetIndex.RemoveAll | src/Base/TargetObjectsList.cs:189-198 | removing queued handles keeps the invariant and removes exactly those keys from the map and the nested subset |
| TargetIndex.RemoveInfoSpec | src/Base/TargetObjectsList.cs:112-125 | `RemoveTargetInfo` returns whether the info was connected, keeps the invariant, and removes the key exactly when its last property goes |
| TargetIndex.DropDeadPreservesWeak | src/Base/TargetObjectsDictionary.cs:113-121 | dropping a dead key with its whole bucket keeps the weaker invariant and removes just that key |
| TargetIndex.DropAll | src/Base/TargetObjectsDictionary.cs:108-124 | dropping every queued handle keeps the weaker invariant and removes exactly those keys |
| TargetIndex.DropDeadLosesCollidingKey | src/Base/TargetObjectsDictionary.cs:118 | a live key sharing a dead key's hash becomes unfindable after the drop, but stays findable under `TargetObjectsList`'s removal |
| TargetIndex.CollectInfos | src/Base/TargetObjectsList.cs:147-163 | an enumeration yields the infos of exactly the live keys and collects exactly the dead keys, each once |
| TargetObjectsList.TargetObjectsList.constructor | src/Base/TargetObjectsList.cs:26-45 | all four collections start empty |
| TargetObjectsList.TargetObjectsList.AddTargetObject | src/Base/TargetObjectsList.cs:57-71 | a fresh handle with no properties, appended to its hash bucket, in the nested subset iff the target is a nested extension; `Count` grows by one |
| TargetObjectsList.TargetObjectsList.AddTargetObjectProperty | src/Base/TargetObjectsList.cs:80-87 | records the property once; a handle that is not a key fails with `KeyNotFoundException` and changes nothing |
| TargetObjectsList.TargetObjectsList.TryFindKey | src/Base/TargetObjectsList.cs:135-142 | returns a key whose live target is the object, the first in its bucket; `null` iff no key targets it |
| TargetObjectsList.TargetObjectsList.IsConnected | src/Base/TargetObjectsList.cs:94-102 | true implies a key targeting the object records the property; the converse holds when live targets are unique |
| TargetObjectsList.TargetObjectsList.RemoveTargetInfo | src/Base/TargetObjectsList.cs:112-125 | the result is whether the info was connected; the state is the one `RemoveTargetInfo` leaves |
| TargetObjectsList.TargetObjectsList.GetTargetInfos | src/Base/TargetObjectsList.cs:147-163 | yields the infos of the live keys; appends each dead key to the queue once; the table is unchanged |
| TargetObjectsList.TargetObjectsList.GetNestedTargetInfos | src/Base/TargetObjectsList.cs:168-184 | the same, over the nested subset |
| TargetObjectsList.TargetObjectsList.ClearDeadReferences | src/Base/TargetObjectsList.cs:189-198 | removes every queued handle from all three collections and empties the queue |
| TargetObjectsList.TargetObjectsList.ClearReferences | src/Base/TargetObjectsList.cs:203-207 | queues the given handles, then clears as `ClearDeadReferences` |
| TargetObjectsList.TargetObjectsList.Clear | src/Base/TargetObjectsList.cs:212-218 | empties all four collections |
| TargetObjectsList.TargetObjectsList.RemoveTargetObject | src/Base/TargetObjectsList.cs:224-235 | takes one handle out of the map, its bucket (dropping an empty bucket) and the nested subset |
| TargetObjectsList.EnumerateThenClear | src/Base/TargetObjectsList.cs:147-198 | after an enumeration and a clean-up, no dead key remains and every live key is kept |
| TargetObjectsDictionary.TargetObjectsDictionary.constructor | src/Base/TargetObjectsDictionary.cs:22-24 | all collections start empty |
| TargetObjectsDictionary.TargetObjectsDictionary.AddTargetObject | src/Base/TargetObjectsDictionary.cs:28-42 | a fresh handle added to the map, its bucket and, for a nested target, the nested subset; `Count` grows by one |
| TargetObjectsDictionary.TargetObjectsDictionary.AddTargetObjectProperty | src/Base/TargetObjectsDictionary.cs:44-51 | records the property once; a missing key fails with `KeyNotFoundException` |
| TargetObjectsDictionary.TargetObjectsDictionary.TryFindKey | src/Base/TargetObjectsDictionary.cs:63-70 | a found handle is a key whose live target is the object; a miss means no key targets it only while every key is in its bucket |
| TargetObjectsDictionary.TargetObjectsDictionary.IsConnected | src/Base/TargetObjectsDictionary.cs:53-61 | true implies a key targeting the object records the property |
| TargetObjectsDictionary.TargetObjectsDictionary.GetTargetInfos | src/Base/TargetObjectsDictionary.cs:72-88 | yields the infos of the live keys and queues each dead key once |
| TargetObjectsDictionary.TargetObjectsDictionary.GetNestedTargetInfos | src/Base/TargetObjectsDictionary.cs:90-106 | the same, over the nested subset |
| TargetObjectsDictionary.TargetObjectsDictionary.ClearDeadReferences | src/Base/TargetObjectsDictionary.cs:108-124 | removes each queued key together with its whole hash bucket, and empties the queue |
| TargetObjectsDictionary.TargetObjectsDictionary.Dispose | src/Base/TargetObjectsDictionary.cs:127-133 | empties all four collections |
| ListenersList.FindSpec | src/Base/ListenersList.cs:95-101 | the lookup in the listener's bucket succeeds iff the listener is registered, and finds its handle |
| ListenersList.AddEntryPreserves | src/Base/ListenersList.cs:38-53 | adding a handle for an unregistered live listener keeps the invariant |
| ListenersList.RemoveEntryPreserves | src/Base/ListenersList.cs:103-108 | removing a handle keeps the invariant and every other handle |
| ListenersList.Unregister | src/Base/ListenersList.cs:93-109 | removal keeps the table valid |
| ListenersList.UnregisterSpec | src/Base/ListenersList.cs:93-109 | after removal the listener is no longer registered, every other handle is kept, and removing again changes nothing |
| ListenersList.Purge | src/Base/ListenersList.cs:114-127 | purging keeps the table valid |
| ListenersList.PurgeSpec | src/Base/ListenersList.cs:114-127 | the purge succeeds iff the queue holds distinct keys, and then removes exactly those |
| ListenersList.PurgeFailSticks | src/Base/ListenersList.cs:116-118 | once the indexer has thrown, later queued handles change nothing |
| ListenersList.DuplicateQueueFails | src/Base/ListenersList.cs:116-118 | a handle queued twice makes the purge throw |
| ListenersList.LiveOfAdd | src/Base/ListenersList.cs:77-87 | one more handle adds its listener to the live or to the dead ones |
| ListenersList.LiveOfExcludes | src/Base/ListenersList.cs:77-87 | a handle outside a set has a listener that no handle of the set has |
| ListenersList.ListenersList.constructor | src/Base/ListenersList.cs:23-28 | the three collections start empty |
| ListenersList.ListenersList.AddListener | src/Base/ListenersList.cs:38-53 | afterwards the listener is registered; if it was already, nothing changes; otherwise a fresh handle joins both dictionaries |
| ListenersList.ListenersList.RemoveListener | src/Base/ListenersList.cs:93-109 | the listener's handle leaves both dictionaries and the listener is no longer registered |
| ListenersList.ListenersList.GetListeners | src/Base/ListenersList.cs:75-88 | yields each live listener once; queues the dead handles once each; the dictionaries are unchanged |
| ListenersList.ListenersList.ClearDeadReferences | src/Base/ListenersList.cs:114-127 | purges the queued handles; on a handle that is no longer a key, throws `KeyNotFoundException` with earlier removals done and the queue kept |
| ListenersList.ListenersList.SynchronizeTargetInfo | src/Base/ListenersList.cs:60-70 | `RemoveTargetInfo` goes to every live listener except the given one, each once; the dictionaries are unchanged, and the handles of dead listeners are appended to the queue once each, after what was queued before |
| ListenersList.EnumerateThenPurge | src/Base/ListenersList.cs:75-127 | a queue filled by one enumeration purges cleanly and removes exactly the dead listeners |
| ListenersList.DoubleEnumerationPoisonsQueue | src/Base/ListenersList.cs:75-127 | two enumerations with a dead listener and no purge between them make the purge throw; since the queue is then kept, every later purge throws too, whatever the table and whatever is queued after |
| ListenersList.PurgeSkippingAbsent | src/Base/ListenersList.cs:114-127 | the purge that skips handles no longer registered keeps the table valid |
| ListenersList.PurgeSkippingAbsentSpec | src/Base/ListenersList.cs:114-127 | that purge removes exactly the queued handles, whether or not one is queued twice |
| ListenersList.RepeatedEnumerationsPurgeCleanly | src/Base/ListenersList.cs:75-127 | under that purge, the queue of two enumerations removes exactly the dead listeners |
| Handles.RemoveFirst | XAMLMarkupExtensions/Base/NestedMarkupExtension.cs:628 | `List.Remove` changes nothing when the element is absent and removes one element otherwise |
| Handles.RemoveFirstSpec | XAMLMarkupExtensions/Base/NestedMarkupExtension.cs:628 | every other element stays; on a duplicate-free list the element is gone |
| Handles.FirstLive | XAMLMarkupExtensions/Base/NestedMarkupExtension.cs:323-325 | the first handle whose current target is the object; `null` iff none targets it |
| Handles.IndexOfLive | XAMLMarkupExtensions/Base/NestedMarkupExtension.cs:235-237 | the position of the first handle targeting the object, no earlier handle targeting it |
| NestedMarkupExtension.KeptSpec | XAMLMarkupExtensions/Base/NestedMarkupExtension.cs:622-629 | a walk keeps exactly the visited handles its rule keeps, without duplicates |
| NestedMarkupExtension.DropStep | XAMLMarkupExtensions/Base/NestedMarkupExtension.cs:628 | removing a visited handle from the live list drops exactly that handle |
| NestedMarkupExtension.KeepStep | XAMLMarkupExtensions/Base/NestedMarkupExtension.cs:625-626 | a kept handle leaves the live list unchanged |
| NestedMarkupExtension.WalkedIsKept | XAMLMarkupExtensions/Base/NestedMarkupExtension.cs:622-629 | removing handles from the list while walking a snapshot of it leaves the kept prefix followed by the unvisited rest |
| NestedMarkupExtension.KeptUnique | XAMLMarkupExtensions/Base/NestedMarkupExtension.cs:622-629 | what a walk keeps has unique targets, and every kept handle satisfies the rule |
| NestedMarkupExtension.SurvivorsSpec | XAMLMarkupExtensions/Base/NestedMarkupExtension.cs:622-629 | a whole walk leaves exactly the handles its rule keeps, each listener once |
| NestedMarkupExtension.WalkDone | XAMLMarkupExtensions/Base/NestedMarkupExtension.cs:684-691 | at the end of a walk the list is the survivors, with unique, kept targets |
| NestedMarkupExtension.StopAtOwnHandle | XAMLMarkupExtensions/Base/NestedMarkupExtension.cs:650-651 | where `AddListener` meets the listener's own handle, the list is valid and holds that handle |
| NestedMarkupExtension.AppendNewHandle | XAMLMarkupExtensions/Base/NestedMarkupExtension.cs:668-669 | where `AddListener` meets no handle of the listener, appending one keeps targets unique and makes it the last handle |
| NestedMarkupExtension.KeptUniqueWithRest | XAMLMarkupExtensions/Base/NestedMarkupExtension.cs:645-666 | mid-walk, the live list still has unique targets |
| NestedMarkupExtension.KeptExcludes | XAMLMarkupExtensions/Base/NestedMarkupExtension.cs:645-666 | a walk keeps no handle to a live object the visited prefix never targets |
| NestedMarkupExtension.EndpointReachedEvent.constructor | XAMLMarkupExtensions/Base/NestedMarkupExtension.cs:610 | the listener list starts empty |
| NestedMarkupExtension.EndpointReachedEvent.Invoke | XAMLMarkupExtensions/Base/NestedMarkupExtension.cs:618-631 | dead handles are removed; exactly the live listeners are notified, in list order |
| NestedMarkupExtension.EndpointReachedEvent.AddListener | XAMLMarkupExtensions/Base/NestedMarkupExtension.cs:637-671 | ignores `null`; removes dead handles and those of listeners with a target the new one is not connected to; stops at the listener's own handle, or appends one; the listener is listed afterwards, each listener once |
| NestedMarkupExtension.EndpointReachedEvent.RemoveListener | XAMLMarkupExtensions/Base/NestedMarkupExtension.cs:677-693 | ignores `null`; removes the listener's handle and every dead handle; no remaining handle is dead or the listener's |
| NestedMarkupExtension.FindsUnconnected | XAMLMarkupExtensions/Base/NestedMarkupExtension.cs:657-664 | the inner loop finds a target the listener is not connected to iff there is one |
| NestedMarkupExtension.WithBinding | XAMLMarkupExtensions/Base/NestedMarkupExtension.cs:345-347 | an already bound property key is left as it was, first type kept; into an empty dictionary the binding is the only entry |
| NestedMarkupExtension.WithBindingSpec | XAMLMarkupExtensions/Base/NestedMarkupExtension.cs:345-347 | afterwards exactly the old keys plus the new one are bound, each once |
| NestedMarkupExtension.InfosOf | XAMLMarkupExtensions/Base/NestedMarkupExtension.cs:177-178 | one `TargetInfo` per binding, with the live target, the property, its type and index |
| NestedMarkupExtension.InfosUpToSpec | XAMLMarkupExtensions/Base/NestedMarkupExtension.cs:166-182 | an info is collected iff a key with that live target binds its property and index |
| NestedMarkupExtension.NestedMarkupExtension.constructor | XAMLMarkupExtensions/Base/NestedMarkupExtension.cs:160 | a new extension has no targets |
| NestedMarkupExtension.NestedMarkupExtension.IsConnected | XAMLMarkupExtensions/Base/NestedMarkupExtension.cs:233-245 | true implies a key targeting the object binds the property and index; the converse holds when live targets are unique |
| NestedMarkupExtension.NestedMarkupExtension.GetTargetObjectsAndProperties | XAMLMarkupExtensions/Base/NestedMarkupExtension.cs:166-182 | the infos of live keys, in key order, every target non-null and alive |
| NestedMarkupExtension.NestedMarkupExtension.RegisterTarget | XAMLMarkupExtensions/Base/NestedMarkupExtension.cs:322-347 | an object already targeted keeps its key and gains the binding once; otherwise `OnFirstTarget` fires iff there were no targets, a fresh key is appended and registered with the dependency manager, and the binding is recorded unless that throws; live targets stay unique |
| NestedMarkupExtension.NestedMarkupExtension.RegisterNewTarget | XAMLMarkupExtensions/Base/NestedMarkupExtension.cs:336-347 | the fresh key is appended and registered; the dictionary and manager states follow the manager's validation outcome |
| NestedMarkupExtension.NestedMarkupExtension.AddTargetProperty | XAMLMarkupExtensions/Base/NestedMarkupExtension.cs:345-347 | the property is bound under the key unless already bound; nothing else changes |
| NestedMarkupExtension.NestedMarkupExtension.Dispose | XAMLMarkupExtensions/Base/NestedMarkupExtension.cs:594-598 | the extension leaves the listener list (dead handles dropped on the way) and forgets all targets |
| NestedMarkupExtension.NewKeyKeepsUnique | XAMLMarkupExtensions/Base/NestedMarkupExtension.cs:336-338 | a key appended for an untargeted object is the one the lookup finds, and live targets stay unique |
| NestedMarkupExtension.OwnTargetsConnected | XAMLMarkupExtensions/Base/NestedMarkupExtension.cs:166-245 | every info `GetTargetObjectsAndProperties` yields passes the extension's own `IsConnected` |
| NestedMarkupExtension.LiveUniqueAfterCollection | XAMLMarkupExtensions/Base/NestedMarkupExtension.cs:233-245 | collection only kills objects, so unique live targets stay unique |
| CatExtension.NatToString | src/Strings/CatExtension.cs:80 | the text of the index is non-empty and made of decimal digits only |
| CatExtension.NatToStringVal | src/Strings/CatExtension.cs:80 | the digits written for the index denote that index |
| CatExtension.NatToStringInjective | src/Strings/CatExtension.cs:80 | two indices have the same text iff they are equal |
| CatExtension.Tag | src/Strings/CatExtension.cs:80 | a tag is at least three characters, opening with `{`, closing with `}`, with only decimal digits between |
| CatExtension.TagInjective | src/Strings/CatExtension.cs:80 | two items have the same tag iff they have the same index, so each iteration looks for its own tag |
| CatExtension.ContainsSpec | src/Strings/CatExtension.cs:82 | `Contains` holds iff the tag occurs at some position |
| CatExtension.ReplaceAbsent | src/Strings/CatExtension.cs:97 | replacing a string that does not occur changes nothing |
| CatExtension.ReplaceBySelf | src/Strings/CatExtension.cs:97 | replacing a string by itself changes nothing |
| CatExtension.ReplaceSkips | src/Strings/CatExtension.cs:97 | text before the first occurrence of the replaced string is copied unchanged |
| CatExtension.ReplaceFirstMatch | src/Strings/CatExtension.cs:97 | at the first occurrence, the text before it is kept, the new value takes its place and replacement goes on after it: every occurrence is replaced, left to right, without overlap |
| CatExtension.TagsAtSamePosition | src/Strings/CatExtension.cs:80 | two tags found at the same position of a string are the tag of the same index |
| CatExtension.TagOpensOnce | src/Strings/CatExtension.cs:80 | an occurrence of a tag opens with `{` and holds no other `{` |
| CatExtension.TagsDisjoint | src/Strings/CatExtension.cs:80 | occurrences of the tags of two different indices never overlap |
| CatExtension.ReplaceKeepsTagAt | src/Strings/CatExtension.cs:80-97 | replacing the tag of one index keeps a given occurrence of another index's tag findable, whatever text is inserted |
| CatExtension.ReplaceKeepsOtherTag | src/Strings/CatExtension.cs:80-97 | substituting tag `{i}` never removes a tag `{j}` with `j != i` from the running string |
| CatExtension.ConsultedSorted | src/Strings/CatExtension.cs:78-84 | the items looked at are looked at in increasing index order, below the item count |
| CatExtension.ConsultedExactly | src/Strings/CatExtension.cs:82-84 | item `k` is looked at iff its tag occurs in the running string when its iteration comes |
| CatExtension.NoItemsKeepFormat | src/Strings/CatExtension.cs:73-101 | with no items the output is the format string |
| CatExtension.NullItemsKeepFormat | src/Strings/CatExtension.cs:96-97 | items that are all `null` leave the format, tags included |
| CatExtension.UnconsultedItemIrrelevant | src/Strings/CatExtension.cs:82-97 | an item whose tag is absent at its iteration has no effect on the output |
| CatExtension.PrefixRunUnchanged | src/Strings/CatExtension.cs:78-99 | item `k` does not affect the iterations before it |
| CatExtension.RunKeepsTag | src/Strings/CatExtension.cs:78-99 | a tag `{j}` in the running string stays there through every later iteration except a non-`null` item `j`'s own |
| CatExtension.HighTagsUntouched | src/Strings/CatExtension.cs:78-99 | a tag whose index is at least the item count and which occurs in the format occurs in the output |
| CatExtension.NullItemTagKept | src/Strings/CatExtension.cs:82-97 | a tag whose item is `null` and which is present at its iteration is in the output verbatim |
| CatExtension.InsertedTagConsultedLater | src/Strings/CatExtension.cs:78-99 | text inserted for item `i` that holds the tag of a later item `j` makes iteration `j` look at item `j` |
| CatExtension.ChainedSubstitution | src/Strings/CatExtension.cs:78-99 | text substituted for one item is scanned by later iterations: `"{0}"` with items `"{1}"`, `"x"` gives `"x"` |
| CatExtension.CatExtension.constructor | src/Strings/CatExtension.cs:36 | the format starts as `""` |
| CatExtension.CatExtension.FormatOutput | src/Strings/CatExtension.cs:71-102 | `null` for a `null` format; otherwise the string after substituting every item in index order; returns which items were looked at |
| CatExtension.CatExtension.SetFormat | src/Strings/CatExtension.cs:43-50 | stores the value; asks for an update iff it differs from the old one |

## Left out

- Garbage collection and the time at which it happens are not modelled. Liveness is the `alive` set each operation receives.
- A hash code that changes while its object is registered is not modelled, because `Obj.hash` is constant. Under such a change the source's bucket lookups can miss a registered object, and a `WeakReferenceKey` built before the change hashes differently from an equal one built after it.
- Locks (`lock (listenersLock)`, `MethodImplOptions.Synchronized`) and concurrency are left out. Each operation is atomic here.
- Lazy enumeration (`yield return`) is not modelled. `GetTargetInfos`, `GetNestedTargetInfos` and `GetListeners` are modelled as run to the end.
- Dictionary and hash-set enumeration order is unspecified in .NET. `GetTargetInfos` and `GetNestedTargetInfos` state the set of infos they yield, not their order. `NestedMarkupExtension`'s `targetObjects` is enumerated in insertion order (`targetKeys`), which is the order .NET's `Dictionary` uses while nothing has been removed.
- `ListenersList.ListenersList.AddListener` and `NestedMarkupExtension.EndpointReachedEvent.AddListener` require a non-`null` listener to be alive, and `NestedMarkupExtension.NestedMarkupExtension.RegisterTarget` and `NestedMarkupExtension.NestedMarkupExtension.RegisterNewTarget` require the same of a non-`null` `targetObject`. A reference being passed keeps its object alive, so none of these excludes a call.
- `NestedMarkupExtension.NestedMarkupExtension.IsConnected`: completeness is stated only when no two keys have the same live target. `RegisterTarget` keeps that property, and `LiveUniqueAfterCollection` shows collection does too.
- `TargetObjectsDictionary.TargetObjectsDictionary.TryFindKey`: completeness is stated only while every key is in its bucket. Its `ClearDeadReferences` breaks that (see Findings).
- `TargetObjectsDictionary.TargetObjectsDictionary.IsConnected`: only the direction from `true` to a recording key is stated, for the same reason.
- `Handles.RemoveFirst`: its contract states only length and absence. Its contents are stated in `RemoveFirstSpec`.
- `ProvideValue` outside the registration block (service-provider handling, `DictionaryEntry`, endpoint value computation) is not modelled. The call `EndpointReachedEvent.AddListener(this)` that follows the block is `EndpointReachedEvent.AddListener`, which the caller composes.
- `OnFirstTarget`, `OnEndpointReached`, `UpdateNewValue` and `GetTargetPropertyPaths` are left out: each calls overridable code. `RegisterTarget` returns `firstTarget` where `OnFirstTarget` would fire. `Invoke` returns the handles it would notify. `SetFormat` returns whether it asks for an update.
- `ObjectDependencyManager` and `EndpointReachedEvent` are static in the source. Here they are objects passed to the operations.
- `ObjectDependencyManager.AddObjectDependency` is called by `ProvideValue` without a check of its result. Its exceptions propagate, which `RegisterNewTarget` models as a failing `Outcome` with the new key left in `targetObjects`.
- `NestedMarkupExtension.NestedMarkupExtension.RegisterNewTarget`: the source adds the key to `targetObjects` before calling the dependency manager. The model writes it after, which is the same state because the two structures share nothing.
- `ObjectDependencyManager.ObjectDependencyManager.AddObjectDependency`: `weakRefDp` has the non-null type `WeakRef`. A `null` handle is still accepted by the source when `objToHold` is `null` (it throws `ArgumentNullException`, lines 62-65) or is itself a `WeakReference` (it throws `ArgumentException`, lines 68-71); only line 74 dereferences it. The model does not cover those two calls. The only caller (`XAMLMarkupExtensions/Base/NestedMarkupExtension.cs:337-341`) passes a fresh handle.
- `ObjectDependencyManager`: the source's registry is a `Dictionary<object, HashSet<WeakReference>>`, so it matches holders with their own `Equals` and `GetHashCode`. The model keys holders by reference. The only caller (`XAMLMarkupExtensions/Base/NestedMarkupExtension.cs:341`) passes the extension itself, which overrides neither, so the two agree for it.
- `NestedMarkupExtension.EndpointReachedEvent.AddListener`: each listener's targets (`GetTargetObjectsAndProperties`) and the new listener's `IsConnected` are parameters (`targetsOf`, `isConnected`). Nothing in the model ties them to the `NestedMarkupExtension` state that `GetTargetObjectsAndProperties` and `IsConnected` compute.
- `Tuple<object, int>` keys compare their property with its `Equals`. The model compares it by reference, which is what `Equals` does for a property object that does not override it.
- `src/Base/TargetPropertyInfo.cs` is not part of this model. Its value is modelled as a record compared by value over property, type and index.
- `TargetInfo.GetHashCode` uses `Tuple.GetHashCode`. The hash combiner is a parameter.
- `CatExtension`: an item that is itself a nested extension (lines 86-94) is resolved by overridable code and is not modelled. Every item is taken as its `ToString()` text, or `null`. A `ToString()` that returns `null` (which `Replace` would treat as the empty string) is not modelled.
- `CatExtension`: `String.Replace` and `String.Contains` are modelled as ordinal operations on `seq<char>`, with no culture or Unicode handling.
- `XAMLMarkupExtensions/Strings/CatExtension.cs` has the same loop and setter, and differs only in how a nested item is resolved, which is left out above. `src/Base/TargetPath.cs` is the same class as the `TargetPath` modelled.
- Null dereferences that can only crash (`GetHashCode()` on a `null` target in `AddTargetObject` and `TryFindKey`) are preconditions. `TargetInfo`'s `null` target object is allowed where the code allows it.

## Findings

| source | as written | input that shows it | evidently intended | confidence | as-written member | corrected member |
|---|---|---|---|---|---|---|
| src/Base/TargetObjectsDictionary.cs:118 | `ClearDeadReferences` removes the whole hash bucket of each dead key | a dead key and a live key whose targets have the same hash code; after clearing, `TryFindKey` no longer finds the live key | remove only the dead handle from its bucket, as `TargetObjectsList.RemoveTargetObject` does | not executed | TargetIndex.DropDeadLosesCollidingKey | TargetIndex.RemoveTargetPreserves |
| src/Base/WeakReferenceKey.cs:48-51 | `Equals` compares current targets, so two keys whose targets are both collected are equal (`null == null`), while `GetHashCode` (lines 36-39) returns their different construction-time hashes | keys over two objects with hash codes 1 and 2, after both are collected | a key whose target is gone equals only itself, which keeps equal keys hashing equally | not executed | WeakReferenceKey.DeadKeysBreakHashContract | WeakReferenceKey.CorrectedEqualsRespectsHash |
| src/Base/ListenersList.cs:116-126 | `GetListeners` (line 82) appends every dead handle to `deadListeners` on each enumeration, and `ClearDeadReferences` indexes `listeners[deadListener]` without a check, clearing the queue (line 126) only after a full pass | a listener that is collected, then two `SynchronizeTargetInfo` calls with no `ClearDeadReferences` between them: the handle is queued twice, the second `listeners[...]` throws `KeyNotFoundException`, and since the queue is never cleared every later `ClearDeadReferences` throws as well | skip a queued handle that is no longer registered, as `TargetObjectsDictionary.ClearDeadReferences` does with `TryGetValue` | not executed | ListenersList.DoubleEnumerationPoisonsQueue | ListenersList.PurgeSkippingAbsentSpec |
