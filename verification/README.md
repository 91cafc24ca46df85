# react-tk reconciler core, modelled in Dafny

react-tk renders a tree of components into Tk windows and widgets, declaratively.
A component's `render` yields ShadowNodes and other components. Each yielded element
is stamped with a render trace, which is its path of frames from the root. The
trace's "id" rendering is the node's uid. Each node carries a PropVector of values
checked against a PropSchema.

A reconciler pairs the old kids of a registered parent with the new rendering. For
each pair it decides whether to create, recreate, update in place, place, replace
or unplace, by diffing the two nodes' prop vectors. It then carries the actions out
against Tk.

This project models that core as pure functions over immutable data:

- the prop model: schemas, prop scalars and vectors, diffs, `deep_merge`, and the
  keyed dicts of `VMapping`;
- render traces and frames, and their string displays;
- ShadowNode's schema defaults and `__merge__`;
- both renderer drafts and the render sink;
- the stateful reconciler and the tree-walking action generator;
- the reconcile states;
- the window and widget reconcilers and wrappers, where Tk's effects are recorded
  as a sequence of calls on a host;
- geometry normalisation, fonts, `maybe_normalize` and the MRO helpers.

Every Python `raise` becomes an `Err` of `Errors.Result`. Python dicts of values
become Dafny maps. Where the code depends on insertion order, a sequence stands in
for the dict (`OrderedDict`). Code the core calls but does not define is a
parameter of the function that needs it:

- `self.create`, `get_compatibility`, `is_same_resource`;
- typeguard's `check_type`, the prop converters;
- `format_subscript`, the key order of a dict being iterated, Tk's slave lists
  and the screen size.

## Model

| member | source | states |
|---|---|---|
| `Duplicates.Runs` | reactk/rendering/stateful_reconciler.py:122-125 | `groupby` yields at least one group exactly for a non-empty sequence, and the last group's key is the last uid |
| `Duplicates.CheckDuplicates` | reactk/rendering/stateful_reconciler.py:122-132 | the check passes iff no uid's LAST run of consecutive siblings has two or more members; a failure names a non-empty set of such uids |
| `Duplicates.LastRunPresent` | reactk/rendering/stateful_reconciler.py:123-125 | a uid with a non-empty last run occurs in the rendering |
| `Duplicates.LastGroupIsTrailing` | reactk/rendering/stateful_reconciler.py:123-125 | the last group `groupby` yields is the trailing run of the sequence |
| `Duplicates.LastRunPositive` | reactk/rendering/stateful_reconciler.py:123-125 | every uid that occurs has a last run of length at least one |
| `Duplicates.GroupDictSnoc` | reactk/rendering/stateful_reconciler.py:123-125 | adding a group on the right overwrites that key's entry in the comprehension's dict |
| `Duplicates.GroupDictLastRun` | reactk/rendering/stateful_reconciler.py:123-125 | a uid in the dict maps to the length of its last run, which is positive; a uid missing from the dict has a last run of 0 |
| `Duplicates.GroupDictIsLastRun` | reactk/rendering/stateful_reconciler.py:123-130 | the dict's keys are exactly the uids that occur, each mapped to the length of its last run |
| `Duplicates.NonAdjacentDuplicatesPass` | reactk/rendering/stateful_reconciler.py:122-132 | two copies of a uid with another uid between them pass the check |
| `Duplicates.EarlierRunForgotten` | reactk/rendering/stateful_reconciler.py:122-132 | an adjacent pair followed later by a single copy of the same uid passes the check |
| `Duplicates.AdjacentDuplicatesFail` | reactk/rendering/stateful_reconciler.py:122-132 | `["a", "b", "b"]` fails the duplicate check |
| `Elements.Flat` | reactk/rendering/component/render_sink.py:87-90 | a render hands over nothing iff every one of its yields lists no element |
| `Fonts.ToTkFont` | reactk/tk/font.py:6-13 | a dict with a family and a size converts to the triple (family, size, style), with style "normal" when absent; a missing family is reported before a missing size; a non-dict fails |
| `Fonts.StyleDefaultsToNormal` | reactk/tk/font.py:12-13 | a font without a style and one with an explicit "normal" style convert alike, whatever other keys they hold |
| `ForceRerenders.TopLevel` | reactk/rendering/component/renderer.py:103 | the top-level node has no key and no trace, carries exactly the rendered nodes as its kids, and keeps the prop state it was built with |
| `ForceRerenders.Prepare` | reactk/rendering/component/renderer.py:101-105 | a successful prepare registers the top node under its uid, carries the rendered nodes, and opens a transient state with the same entries and nothing placed yet |
| `ForceRerenders.TopKidsTraced` | reactk/rendering/component/renderer.py:101-103 | every kid of the top node has a trace that starts with the mounted component's root frame |
| `FutureActions.MakeCreate` | reactk/rendering/future_actions.py:13-25 | a `Create` carries the next node's full computed values as its diff; it fails exactly when computing them fails |
| `FutureActions.MakeRecreate` | reactk/rendering/future_actions.py:45-59 | a `Recreate` carries the old resource and the next node's full computed values |
| `FutureActions.ActionDiff` | reactk/rendering/future_actions.py:28-92 | there is no diff exactly for an `Unplace`; `Place` and `Replace` report their inner action's diff |
| `FutureActions.Incoming` | reactk/rendering/future_actions.py:62-92 | there is no incoming node exactly for an `Unplace` |
| `FutureActions.ActionUid` | reactk/rendering/future_actions.py:40-103 | a `Place` or update reports the incoming node's uid, a `Replace` the replaced resource's, an `Unplace` the removed one's |
| `FutureActions.ActionTruthy` | reactk/rendering/future_actions.py:33-34 | an action is falsy exactly when it is an update whose diff is empty |
| `FutureActions.ActionUidIsIncomingUnlessReplace` | reactk/rendering/future_actions.py:78-92 | a `Replace` names the replaced resource, so its uid differs from the incoming node's whenever the two nodes' uids differ |
| `GenerateActions.NextResource` | reactk/rendering/generate_actions.py:34-43 | there is a resource exactly when the next node is registered |
| `GenerateActions.InnerAction` | reactk/rendering/generate_actions.py:45-55 | it creates exactly when there is no previous entry; then it succeeds iff the props compute and carries the full computed diff; a recreate means compat said recreate; an update carries the diff of the previous node against the next; the next node is the given one |
| `GenerateActions.OuterAction` | reactk/rendering/generate_actions.py:45-78 | with no next node it unplaces iff there is a previous one; an unregistered previous node fails with AttributeError on `get_compatibility` when its class defines none, else with that call's error or on `prev.resource` (recreate) or `prev.node` (update); a `Place` exactly when there is no previous node, at the given index and container; a `Replace` has differing uids or a replace or recreate compat; an in-place inner action means the same uid and compat "update"; an unknown compat fails |
| `GenerateActions.Compute` | reactk/rendering/generate_actions.py:100-126 | duplicate keys fail; an unregistered parent is a KeyError; a success names the placed uids plus every descendant uid of the parent |
| `GenerateActions.Walk` | reactk/rendering/generate_actions.py:103-126 | a success names the placed uids plus the uids of the kids from the i-th on and of their descendants |
| `GenerateActions.RegisteredNextUsesOldNode` | reactk/rendering/generate_actions.py:34-38 | for a registered next kid, the node that is diffed and brought in is the resource's old node, not the fresh render |
| `GenerateActions.CreatingNewIgnoresPrevs` | reactk/rendering/generate_actions.py:116-126 | when the parent is being created, every kid is paired with no previous resource |
| `GenerateActions.CreatingNewWithTrailingPrevFails` | reactk/rendering/generate_actions.py:103-113 | when creating new, an old kid beyond the new ones has neither side, and the assertion fails |
| `GenerateActions.StalePlacedSkipsRemoval` | reactk/rendering/generate_actions.py:85-113 | a kid that is already placed adds nothing: the walk from it equals the walk from the next kid |
| `GenerateActions.UnregisteredParentFails` | reactk/rendering/generate_actions.py:116-126 | a next kid with kids of its own and no registered resource makes the whole walk fail |
| `GenerateActions.PlacedGrows` | reactk/rendering/generate_actions.py:100-126 | the placed set only grows, and after a successful call it holds the uid of every new kid |
| `GenerateActions.DescFromHas` | reactk/rendering/generate_actions.py:116-126 | the uids a successful walk places include every next kid's uid from the starting position on |
| `Geometries.GeometryOf` | reactk/tk/reconcilers/window_reconciler.py:34 | a non-dict fails; a missing "x" is KeyError("x"); a success needs the four numeric keys as ints and `anchor_point` (any value), and returns them |
| `Geometries.IntAt` | reactk/tk/reconcilers/window_reconciler.py:34 | `geo[k]` yields the int stored under `k`; a missing key is a KeyError and any other value a TypeError |
| `Geometries.Wrap` | reactk/tk/reconcilers/window_reconciler.py:35-38 | a coordinate c >= 0 is kept; for c < 0 the result minus the screen size is c |
| `Geometries.Position` | reactk/tk/reconcilers/window_reconciler.py:35-48 | the point handed to Tk is the wrapped point shifted by the width for "rt" and "rb" and by the height for "lb" and "rb" |
| `Geometries.NormalizeGeo` | reactk/tk/reconcilers/window_reconciler.py:33-50 | the string parses back to the width, the height and the computed position |
| `Geometries.AnchorCorners` | reactk/tk/reconcilers/window_reconciler.py:39-48 | the window's anchored corner lands on the wrapped point: top-left for "lt" and any other anchor, top-right for "rt", bottom-left for "lb", bottom-right for "rb" |
| `Geometries.WrapBeforeShift` | reactk/tk/reconcilers/window_reconciler.py:35-48 | the screen wrap happens before the anchor shift, as a concrete "rt" case at x = -10 shows |
| `Geometries.ScreenIrrelevantWhenNonNegative` | reactk/tk/reconcilers/window_reconciler.py:35-38 | with non-negative coordinates the screen size does not affect the result |
| `Geometries.SplitAt` | reactk/tk/reconcilers/window_reconciler.py:50 | splitting at the first occurrence of a separator gives the part before it, which holds no separator, and the part after it |
| `Geometries.DigitsOfNat` | reactk/tk/reconcilers/window_reconciler.py:50 | a number's decimal digits read back as that number |
| `Geometries.IntRoundTrip` | reactk/tk/reconcilers/window_reconciler.py:50 | the decimal rendering of an int reads back as that int and contains no 'x' or '+' |
| `Geometries.SplitAtJoin` | reactk/tk/reconcilers/window_reconciler.py:50 | splitting `a + [c] + b` at `c`, where `a` has no `c`, gives back `a` and `b` |
| `Geometries.FormatParses` | reactk/tk/reconcilers/window_reconciler.py:50 | `"{w}x{h}+{x}+{y}"` parses back to its four ints |
| `Geometries.NormalizeGeoInjective` | reactk/tk/reconcilers/window_reconciler.py:33-50 | two geometries with the same string agree on size and on the position handed to Tk |
| `Maybe.MaybeNormalize` | reactk/model2/util/maybe.py:5-12 | the result is always an `Option`; an `Option` is returned unchanged; None becomes Nothing; anything else becomes `Some` of itself |
| `Maybe.NormalizeIdempotent` | reactk/model2/util/maybe.py:5-12 | normalising is idempotent, and the result is Nothing exactly for Nothing and None |
| `Maybe.FixedPointsAreOptions` | reactk/model2/util/maybe.py:6-9 | the inputs returned unchanged are exactly the `Option`s |
| `OrderedDict.KeysOf` | reactk/model2/prop_model/v_mapping.py:30-36 | the key sequence has one key per element, in order |
| `OrderedDict.Lookup` | reactk/model2/prop_model/v_mapping.py:45-49 | a lookup finds a value with the requested key exactly when one is stored |
| `OrderedDict.Put` | reactk/model2/prop_model/v_mapping.py:30-36 | a lookup sees the new value under its key and every other key unchanged; an existing key keeps its place, a new key is appended; keys stay unique |
| `OrderedDict.LastWith` | reactk/model2/prop_model/v_mapping.py:30-36 | the reference "last element with key k" is an element of the input carrying that key |
| `OrderedDict.NewKeys` | reactk/model2/prop_model/v_mapping.py:30-36 | exactly the keys of `ks` that are not in `seen` |
| `OrderedDict.PutAllSpec` | reactk/model2/prop_model/v_mapping.py:30-36 | folding assignments keeps keys unique, stores the LAST value given for each key, and orders keys as the start followed by new keys in first-occurrence order |
| `OrderedDict.FromSeqSpec` | reactk/model2/prop_model/v_mapping.py:30-36 | `_to_dict` of an iterable is a proper dict: for every key, the last value given for it, with keys in order of first appearance |
| `OrderedDict.FirstIndex` | reactk/model2/prop_model/v_mapping.py:45-49 | the index found holds the key, and no earlier index does |
| `OrderedDict.LookupAt` | reactk/model2/prop_model/v_mapping.py:45-49 | a lookup finds the value at the first position holding the key |
| `PropDiff.DiffWith` | reactk/model2/prop_model/prop.py:345-348 | a non-mapping fails with NotAMapping; raw values that fail validation fail; valid ones are diffed as a vector of the receiver's schema; a vector is diffed directly |
| `PropDiff.Diff` | reactk/model2/prop_model/prop.py:345-374 | succeeds iff the other side's values are valid, every item of both vectors wraps, the other schema's names are within the receiver's, and every receiver key's step succeeds |
| `PropDiff.Outside` | reactk/model2/prop_model/prop.py:350-352 | nothing is found exactly when every name is in the set; a found name is outside it |
| `PropDiff.DiffFrom` | reactk/model2/prop_model/prop.py:350-372 | succeeds iff the step for every remaining key succeeds |
| `PropDiff.Step` | reactk/model2/prop_model/prop.py:353-372 | a key the other side lacks reports nothing; reporting something needs both sides' items to wrap |
| `PropDiff.Collect` | reactk/model2/prop_model/prop.py:349-372 | the fold's keys are the given keys plus those of the listed keys that report a value |
| `PropDiff.DiffFromCollects` | reactk/model2/prop_model/prop.py:349-372 | a successful loop equals the fold of the remaining entry names, each stored with what it reports |
| `PropDiff.DiffContents` | reactk/model2/prop_model/prop.py:345-374 | a diff holds exactly the receiver's keys whose step reports something, each with the reported value |
| `PropDiff.StepCases` | reactk/model2/prop_model/prop.py:355-372 | for a key both sides have: a scalar reports iff the two scalars are unequal; a recursive section iff its sub-diff is non-empty; any other section always |
| `PropDiff.EmptyIffNotTruthy` | reactk/model2/prop_model/prop.py:378-383 | a PDiff is truthy iff its dict is non-empty |
| `PropDiff.DiffKeysInSchema` | reactk/model2/prop_model/prop.py:345-374 | every key of a diff is a name of the receiver's schema |
| `PropDiff.Lookups` | reactk/model2/prop_model/prop.py:320-322 | in a vector whose entries all wrap, a schema key is found by both `in` and `[]`, and any other key is absent |
| `PropDiff.DiffScalar` | reactk/model2/prop_model/prop.py:357-359 | a scalar key is in the diff iff `other` has it and the two PropScalars are unequal, and then `other`'s PropScalar is stored |
| `PropDiff.DiffRecursiveSection` | reactk/model2/prop_model/prop.py:366-369 | a recursive section is in the diff iff `other` has it and the sub-diff is non-empty, and then the sub-diff is stored |
| `PropDiff.DiffFixedSection` | reactk/model2/prop_model/prop.py:370-372 | a section diffed as a whole is in the diff whenever `other` has it, changed or not, and `other`'s PropVector is stored |
| `PropDiff.GetItemAt` | reactk/model2/prop_model/prop.py:320-322 | in a well-keyed schema, `v[name]` wraps the entry of that name |
| `PropDiff.DiffSelf` | reactk/model2/prop_model/prop.py:345-374 | diffing a vector with itself is empty iff it has no section diffed as a whole, at any depth |
| `PropDiff.DiffSelfFixed` | reactk/model2/prop_model/prop.py:370-372 | a vector with a section diffed as a whole is never equal to itself under `diff` |
| `PropDiff.DiffSelfClean` | reactk/model2/prop_model/prop.py:357-369 | without a section diffed as a whole, a vector diffed against itself gives the empty diff |
| `PropDiff.SelfStep` | reactk/model2/prop_model/prop.py:355-372 | the self-diff step of an entry reports something iff that entry is, or contains, a section diffed as a whole |
| `PropSchemas.Names` | reactk/model2/prop_model/prop.py:86-87 | the names are exactly the entries' keys |
| `PropSchemas.MakeSchema` | reactk/model2/prop_model/prop.py:70-84 | the constructor keys its entries by name, later duplicates winning |
| `PropSchemas.SchemaRequiredCases` | reactk/model2/prop_model/prop.py:89-91 | the empty schema is required (an empty `all`), and a schema with a leaf whose `no_value` is None is not |
| `PropSchemas.PropAssertValid` | reactk/model2/prop_model/prop.py:166-177 | None for a required prop is RequiredIsNone; an untyped prop accepts anything else; the only failures are RequiredIsNone and TypeCheckFailed |
| `PropSchemas.FloatPromotion` | reactk/model2/prop_model/prop.py:173-174 | an int handed to a float prop is checked as the equal float |
| `PropSchemas.AssertValid` | reactk/model2/prop_model/prop.py:112-128 | a non-dict fails with NotAMapping; it passes iff the input is a dict holding every required entry and no extra key |
| `PropSchemas.CheckPresent` | reactk/model2/prop_model/prop.py:117-123 | passes iff every entry is present or not required; a failure names a missing entry |
| `PropSchemas.ValidityIgnoresValues` | reactk/model2/prop_model/prop.py:117-124 | the verdict depends only on which keys are present: replacing any present value does not change it |
| `PropSchemas.CheckPresentKeysOnly` | reactk/model2/prop_model/prop.py:117-123 | the required-entry check gives the same answer for any two inputs with the same keys |
| `PropSchemas.SchemaUpdate` | reactk/model2/prop_model/prop.py:130-132 | the updated schema keeps the receiver's name, repr and computed name |
| `PropSchemas.SchemaUpdateSpec` | reactk/model2/prop_model/prop.py:130-132 | the merge is right-biased by name: a name `other` gives maps to `other`'s last entry of that name, any other name keeps the receiver's entry |
| `PropSchemas.UniqueLastIsLookup` | reactk/model2/prop_model/v_mapping.py:30-36 | in a dict with unique keys, the last entry of a key is the one a lookup finds |
| `PropVectors.NewScalar` | reactk/model2/prop_model/prop.py:193-195 | building a scalar fails iff its prop is required and the value is None |
| `PropVectors.ScalarEqIgnoresPrevious` | reactk/model2/prop_model/prop.py:221-226 | scalar equality ignores `old`: a scalar equals any copy of itself with another `old` |
| `PropVectors.ScalarComputedName` | reactk/model2/prop_model/prop.py:201-203 | the computed name is the prop's `computed_name` when it is set and non-empty, its name otherwise |
| `PropVectors.ScalarCompute` | reactk/model2/prop_model/prop.py:212-216 | the computed value is the value, with `no_value` for MISSING, passed through the converter when there is one |
| `PropVectors.ScalarUpdate` | reactk/model2/prop_model/prop.py:232-236 | fails iff the prop is required and the value is None; otherwise the same prop with the new value, and the old value as `old` when truthy, else None |
| `PropVectors.NewVector` | reactk/model2/prop_model/prop.py:244-253 | building a vector succeeds iff its values pass the schema's validation |
| `PropVectors.OldFor` | reactk/model2/prop_model/prop.py:306 | the old value is looked up in a truthy `old` dict, and is None when `old` is falsy |
| `PropVectors.Wrap` | reactk/model2/prop_model/prop.py:305-318 | the item keeps the entry's name; a leaf gives a scalar holding the value under that name, or the prop's no-value; a section gives a vector over its schema |
| `PropVectors.GetItem` | reactk/model2/prop_model/prop.py:320-322 | `v[key]` fails with KeyError iff the schema has no such entry, and otherwise wraps that entry |
| `PropVectors.Contains` | reactk/model2/prop_model/v_mapping.py:38-43 | `key in v` is false exactly on KeyError and true exactly when the lookup succeeds; other failures propagate |
| `PropVectors.Items` | reactk/model2/prop_model/prop.py:298-303 | iteration yields one wrapped item per schema entry, in schema order |
| `PropVectors.ItemsFrom` | reactk/model2/prop_model/prop.py:298-300 | iterating from entry `i` on yields that entry's item and then the rest |
| `PropVectors.ItemsFollowSchema` | reactk/model2/prop_model/prop.py:298-318 | `len(v)` is the schema's length; item `i` is named as entry `i`, with `no_value` for a missing leaf and `{}` for a missing section |
| `PropVectors.MissingLeafWrapsToNone` | reactk/model2/prop_model/prop.py:153-155 | once a vector exists, every leaf missing from its values wraps to None: `_wrap` never substitutes a real default |
| `PropVectors.ExplicitNoneFailsOnWrap` | reactk/model2/prop_model/prop.py:193-195 | a leaf explicitly given None passes validation but cannot be wrapped if its prop is required |
| `PropVectors.VectorComputedName` | reactk/model2/prop_model/prop.py:259-261 | a vector's computed name is the schema's `computed_name` when it is set and non-empty, its name otherwise |
| `PropVectors.Place` | reactk/model2/prop_model/prop.py:266-279 | without a subsection the value is stored at top level under the computed name; a missing subsection is created and an existing one must be a dict; the keys are the accumulator's plus the subsection |
| `PropVectors.ComputePlacement` | reactk/model2/prop_model/prop.py:263-282 | with disjoint slots, `compute` puts every entry's computed value in its slot: a leaf at `result[subsection][computed_name]`, a section at `result[computed_name]` |
| `PropVectors.ComputeFromPlacement` | reactk/model2/prop_model/prop.py:274-281 | the loop from any entry on keeps earlier slots and fills each remaining entry's slot |
| `PropVectors.StepFills` | reactk/model2/prop_model/prop.py:276-281 | one pass fills its own entry's slot |
| `PropVectors.StepKeeps` | reactk/model2/prop_model/prop.py:276-281 | one pass leaves every other entry's slot as it was |
| `PropVectors.Update` | reactk/model2/prop_model/prop.py:334-343 | the schema is kept and `old` is the receiver's values; it succeeds iff every item wraps and every update succeeds |
| `PropVectors.UpdateFrom` | reactk/model2/prop_model/prop.py:336-342 | the loop from entry `i` on leaves one item per remaining entry, each that entry's item or its update |
| `PropVectors.UpdateOne` | reactk/model2/prop_model/prop.py:337-342 | the updated item keeps the entry's name |
| `PropVectors.Store` | reactk/model2/prop_model/prop.py:335 | the stored dict's keys are exactly the items' names |
| `PropVectors.StoreAt` | reactk/model2/prop_model/prop.py:335 | with distinct names, each item is stored under its own name |
| `PropVectors.StoreValid` | reactk/model2/prop_model/prop.py:343 | the stored dict names exactly the schema's entries, so the new vector always passes validation |
| `PropVectors.UpdateStores` | reactk/model2/prop_model/prop.py:334-343 | the updated vector stores at entry `i`'s name that entry's updated item |
| `PropVectors.UpdateLeaf` | reactk/model2/prop_model/prop.py:232-236 | a leaf with a non-None override stores a scalar holding the override, with the current value as `old` only when truthy; without one it stores the current scalar |
| `PropVectors.UpdatedSectionsCannotWrap` | reactk/model2/prop_model/prop.py:313-316 | an updated vector stores PropVector objects where sub-dicts were, so wrapping any of its sections fails |
| `TkReconcileState.Migrate` | react_tk/rendering/actions/reconcile_state.py:27-29 | a migrated entry keeps its resource and shows the new node |
| `TkReconcileState.MigrateLastWins` | react_tk/rendering/actions/reconcile_state.py:27-29 | migrating twice keeps only the last node, and migrating to the node already shown changes nothing |
| `TkReconcileState.MigrateIn` | react_tk/rendering/actions/reconcile_state.py:27-29 | `migrate` changes the registered object in place: the registry keeps its uids and every slot its resource, the slots holding the entry show the new node, and no other slot changes |
| `TkReconcileState.MigrateInThenGet` | react_tk/rendering/actions/reconcile_state.py:27-29 | after migrating an entry registered under its node's uid, the lookup by that uid finds the migrated entry; migrating an unregistered entry leaves the registry as it was |
| `TkReconcileState.Overwrite` | react_tk/rendering/actions/reconcile_state.py:37-39 | overwriting registers the entry under its node's uid, leaves other uids alone, and counts the uid as placed last |
| `TkReconcileState.NewTransient` | react_tk/rendering/actions/reconcile_state.py:44-48 | a transient state has the same entries and `placed_last`, with nothing being placed |
| `TkReconcileState.FromTransient` | react_tk/rendering/actions/reconcile_state.py:50-52 | adopting a transient state takes its entries, and what it was placing becomes what was placed last |
| `TkReconcileState.Get` | react_tk/rendering/actions/reconcile_state.py:54-58 | `get` finds an entry exactly when one is registered under the node's uid |
| `TkReconcileState.GetItem` | react_tk/rendering/actions/reconcile_state.py:54-58 | `state[node]` is a KeyError exactly for an unregistered uid |
| `TkReconcileState.GetAgreesWithGetItem` | react_tk/rendering/actions/reconcile_state.py:54-58 | `get` returns a value exactly where `[]` succeeds, and then the same value |
| `TkReconcileState.OverwriteThenGet` | react_tk/rendering/actions/reconcile_state.py:37-58 | what was overwritten is found again by any node with the same uid and was placed last; other nodes see what they saw before |
| `TkReconcileState.EmptyPassForgetsPlacement` | react_tk/rendering/actions/reconcile_state.py:44-52 | a pass that places nothing leaves nothing placed last and keeps the entries |
| `TkReconcileState.TransientOverwriteNotPlaced` | react_tk/rendering/actions/reconcile_state.py:37-52 | an overwrite through the transient state registers the entry after adoption, but does not count it as placed |
| `ReconcileState.Overwrite` | reactk/rendering/actions/reconcile_state.py:30-31 | overwriting registers the entry under its node's uid, replacing any earlier entry for it and nothing else |
| `ReconcileState.NewTransient` | reactk/rendering/actions/reconcile_state.py:33-39 | a transient state has the same entries and nothing placed yet |
| `ReconcileState.OverwriteLastWins` | reactk/rendering/actions/reconcile_state.py:30-31 | overwriting twice under one uid keeps the second entry, and overwrites under two different uids commute |
| `Reflection.GetMroUpTo` | reactk/model2/util/core_reflection.py:23-34 | the result is a prefix of the MRO starting with the class; it is just the class when there is no `top` or the MRO lacks it, and otherwise ends at the first `top` |
| `Reflection.MroUpToShortest` | reactk/model2/util/core_reflection.py:30-34 | the result is the shortest prefix of the MRO that ends with `top` |
| `Reflection.FirstWins` | reactk/model2/util/core_reflection.py:15-18 | the loop adds exactly the walked names and never changes a name already stored |
| `Reflection.GetAttrsDownto` | reactk/model2/util/core_reflection.py:4-20 | the keys are exactly the names met on the walk |
| `Reflection.FirstWinsFirst` | reactk/model2/util/core_reflection.py:15-18 | each name maps to the value of its first occurrence in the walk |
| `Reflection.OwnShadowsInherited` | reactk/model2/util/core_reflection.py:4-20 | a class's own attribute wins over every inherited one of the same name |
| `Reflection.StopAtCutsWalk` | reactk/model2/util/core_reflection.py:10-13 | when the first base is a stop class, only the class's own attributes are collected |
| `Reflection.WalkKeys` | reactk/model2/util/core_reflection.py:4-20 | the keys are the class's own names together with the names from each base walked before the first stop class |
| `Reflection.BasesNames` | reactk/model2/util/core_reflection.py:10-13 | the loop over the bases from the `i`-th on yields exactly the attribute names of each base from the `i`-th up to the first stop class, each base walked in full |
| `RenderSinks.ProduceSequenced` | reactk/rendering/component/render_sink.py:29-37 | the pair's counter becomes the frame's sequence id and then moves on by one; no other counter changes |
| `RenderSinks.ProduceMany` | reactk/rendering/component/render_sink.py:29-37 | `n` successive calls for one pair return `n` frames numbered from the current counter, and advance it by `n` |
| `RenderSinks.FreshIdsCountFromZero` | reactk/rendering/component/render_sink.py:26-37 | a fresh state numbers one pair's frames 0, 1, 2, ... |
| `RenderSinks.SendOne` | reactk/rendering/component/render_sink.py:67-81 | a non-element is a TypeError; a missing construct trace is a RuntimeError; a success only grows the counters and stamps everything under the root; a node yields exactly one entry |
| `RenderSinks.Push` | reactk/rendering/component/render_sink.py:87-90 | a success only grows the counters and stamps every rendered node under the root |
| `RenderSinks.PushYields` | reactk/rendering/component/render_sink.py:87-94 | a success only grows the counters and stamps every rendered node under the root |
| `RenderSinks.PushOne` | reactk/rendering/component/render_sink.py:87-90 | a success only grows the counters and stamps every rendered node under the root |
| `RenderSinks.PushAppend` | reactk/rendering/component/render_sink.py:87-90 | pushing `xs + ys` is pushing `xs`, then `ys` with the counters `xs` left |
| `RenderSinks.PushOneIsPush` | reactk/rendering/component/render_sink.py:88 | a single element is pushed as the one-element list |
| `RenderSinks.PushYieldsFlat` | reactk/rendering/component/render_sink.py:87-90 | a render's pushes, one after the other, are one push of all their elements in order |
| `RenderSinks.SendNode` | reactk/rendering/component/render_sink.py:69-78 | the frame is the sequenced frame of the current count; the node fails iff pushing its kids fails; a success is one node whose kids are rendered under the root plus that frame |
| `RenderSinks.SendComponent` | reactk/rendering/component/render_sink.py:79-81 | a component contributes exactly what its render pushed, in order, each element under the component's own trace |
| `RenderSinks.PushRejectsNonElements` | reactk/rendering/component/render_sink.py:67-72 | a push with any non-element in it fails |
| `RenderSinks.Run` | reactk/rendering/component/render_sink.py:92-102 | as written, a non-node yields nothing and keeps the counters, and a node fails |
| `RenderSinks.RunIntended` | reactk/rendering/component/render_sink.py:92-102 | corrected, a component runs as the push of its flattened outputs; anything else adds nothing; everything is stamped under the root |
| `RenderSinks.RunDropsComponentOutput` | reactk/rendering/component/render_sink.py:96-102 | for a component that pushes one node, the as-written run returns nothing and the corrected run returns that node |
| `Renderers.RenderOne` | reactk/rendering/renderer.py:73-88 | a non-element without a key is an AttributeError, with one a TypeError; on success the line's count grows by one and no other line's changes, everything is traced under the base plus the frame, and a node gives exactly one node with that trace |
| `Renderers.RenderAll` | reactk/rendering/renderer.py:72-88 | the line's count grows by the length of the list, other lines are unchanged, and every trace extends the base |
| `Renderers.YieldOne` | reactk/rendering/renderer.py:70-78 | one `yield_` call advances the calling line's count by the number of elements it hands over, and no other line's count |
| `Renderers.Scope` | reactk/rendering/renderer.py:59-90 | within one scope each line's count grows by the number of elements yielded from it, and every appended node's trace extends the scope's trace |
| `Renderers.RenderKids` | reactk/rendering/renderer.py:42-53 | any kid that is not an element fails; kids that are all nodes pass unchanged |
| `Renderers.ComputeRender` | reactk/rendering/renderer.py:55-94 | every node the render yields is traced under the root's frame, occurrence 1 at the draft's root line |
| `Renderers.RenderNodeKids` | reactk/rendering/renderer.py:80-82 | in the `ComponentMount` draft a node renders iff its kids render and both of its `__merge__` calls pass, and it keeps its original kids; in the `RootRenderer` draft it renders iff its kids do, and carries the rendered kids with its props untouched |
| `Renderers.MountMerge` | reactk/rendering/renderer.py:81-82 | the appended node's prop state keeps its class schema, and is only reached once the `__CHILDREN__` merge has passed |
| `Renderers.MountRejectsSections` | reactk/rendering/renderer.py:80-82 | a yielded node whose values have a section, as every widget's `font` and `Pack` are, makes the `ComponentMount` render fail |
| `Renderers.YieldNumbering` | reactk/rendering/renderer.py:72-78 | the nodes of one `yield_` of a list take the line's consecutive counts, in list order |
| `Renderers.ScopeStartsAtOne` | reactk/rendering/renderer.py:59-60 | every scope starts its counters afresh: a component's first element from any line has occurrence 1 under the component's trace |
| `Renderers.KidComponentsStartAfresh` | reactk/rendering/component/renderer.py:47-58 | components among the kids render under the empty trace, not under their parent's |
| `Renderers.KidsRendered` | reactk/rendering/renderer.py:42-53 | when `_render_kids` succeeds, the render of each component kid succeeded |
| `Resources.Uids` | reactk/model/resource.py:43-45 | the uid list has one uid per node, in order |
| `Resources.ResourceUid` | reactk/model/resource.py:43-45 | a resource's uid is its node's uid, whatever its class or underlying object |
| `Resources.ResourceEq` | reactk/model/resource.py:27-32 | equal resources are the same resource by `is_same_resource`, are of one class, and hold nodes of one class: the field-less dataclass `__eq__` of `ShadowNode` (reactk/model/shadow_node.py:64-65) compares classes only |
| `Resources.ResourceEqIgnoresUid` | reactk/model/resource.py:27-32 | resources of one class whose nodes are of one class are equal whenever `is_same_resource` says so, whatever the uids; different classes are never equal; a resource equals itself iff `is_same_resource` accepts it; the relation is symmetric wherever `is_same_resource` is |
| `Resources.EqualResourcesMayDifferInUid` | reactk/model/resource.py:27-32 | two equal resources whose uids differ exist: two label wrappers around one widget, holding label nodes with different uids |
| `ShadowNodes.DefaultEntriesRequired` | reactk/model/shadow_node.py:30-32 | as `is_required` is written, `__TRACE__` and `__CHILDREN__` are both required and `key` is not |
| `ShadowNodes.InitSubclass` | reactk/model/shadow_node.py:39-46 | a class gets no schema exactly when it is abstract; otherwise the schema keeps its name and repr |
| `ShadowNodes.InitSubclassAddsDefaults` | reactk/model/shadow_node.py:39-46 | every concrete class's schema has the default `__TRACE__` and `__CHILDREN__` entries, replacing any of those names, and keeps its own entry for every other name |
| `ShadowNodes.Refresh` | reactk/model/shadow_node.py:49-53 | a holder with props is unchanged; one without gets an empty vector of its class schema when `{}` is valid for it, and the validation error otherwise |
| `ShadowNodes.Merge` | reactk/model/shadow_node.py:48-57 | succeeds iff the refresh and both updates succeed; the receiver gets the refreshed holder; the clone keeps its type, its class schema and the old values' schema, and its `old` is the first update's values |
| `ShadowNodes.MergeKwargsWin` | reactk/model/shadow_node.py:54 | a leaf given a non-None value by `kwargs` holds that value in the clone, whatever `other` said |
| `ShadowNodes.MergeOtherWrappedTwice` | reactk/model/shadow_node.py:54 | a value given only by `other` reaches the clone as a PropScalar whose value is the PropScalar the first update stored |
| `ShadowNodes.MergeFailsWithSections` | reactk/model/shadow_node.py:54 | `__merge__` fails on any node whose values have a section |
| `ShadowNodes.MergeStaleValues` | reactk/model/shadow_node.py:49-56 | when the receiver's values are empty, the clone keeps the old empty schema, even though the receiver was given a vector of the class schema |
| `StatefulReconcile.InnerAction` | reactk/rendering/stateful_reconciler.py:45-79 | with nothing registered it is the create of the next node; it creates exactly then; a recreation exactly when compat says recreate; an update carries the diff of the registered node against the next |
| `StatefulReconcile.GetAction` | reactk/rendering/stateful_reconciler.py:35-95 | no next node fails without a previous one and otherwise unplaces it; a `Place` exactly when there is no previous node; a `Replace` names the previous node and has differing uids or a replace or recreate compat; an update keeps the uid and carries the props diff; equal uids without a registered placement fail, and so does an unknown compat |
| `StatefulReconcile.ComputeActions` | reactk/rendering/stateful_reconciler.py:134-151 | a duplicate error propagates; an unregistered parent is a KeyError |
| `StatefulReconcile.WalkShape` | reactk/rendering/stateful_reconciler.py:138-151 | the walk gives one action per remaining new node, each that position's `get_action`, then one `Unplace` per later old kid whose uid the rendering does not place |
| `StatefulReconcile.WalkPairAt` | reactk/rendering/stateful_reconciler.py:138-151 | the action the walk yields for each position of the rendering is that position's own `get_action` |
| `StatefulReconcile.ActionsFollowPairs` | reactk/rendering/stateful_reconciler.py:134-151 | position `k` of the rendering yields exactly `get_action` of its pair, and the actions after that are `Unplace`s of unplaced old kids |
| `StatefulReconcile.DoCreate` | reactk/rendering/stateful_reconciler.py:153-165 | fails exactly for a recreation; a `Create` makes the resource, records that its props were applied and registers it under the next uid; an `Update` migrates (the wrappers' `migrate` builds a new wrapper), keeps the registry, and adds effects iff the diff is non-empty |
| `StatefulReconcile.DoReconcile` | reactk/rendering/stateful_reconciler.py:167-198 | a falsy action does nothing; effects and registrations only grow; an action that creates registers its incoming uid; an `Unplace` records one unplacement; a recreation succeeds iff the next node's props compute |
| `StatefulReconcile.PlaceRecreateOrder` | reactk/rendering/stateful_reconciler.py:179-182 | `Place(Recreate)` creates and applies the full props, destroys the old resource, then places the new one |
| `StatefulReconcile.ReplaceRecreateOrder` | reactk/rendering/stateful_reconciler.py:188-191 | `Replace(Recreate)` creates, has the replaced resource replaced by the new one, then destroys the old resource |
| `StatefulReconcile.Run` | reactk/rendering/stateful_reconciler.py:202-203 | a successful run only adds effects and registrations and keeps the placement |
| `StatefulReconcile.RunRegisters` | reactk/rendering/stateful_reconciler.py:153-203 | after a successful run, every node that a grounded action brings in is registered |
| `StatefulReconcile.Reconcile` | reactk/rendering/stateful_reconciler.py:200-204 | as written, `reconcile` always fails with a TypeError |
| `StatefulReconcile.ReconcileAlwaysFails` | reactk/rendering/stateful_reconciler.py:200-201 | as written, even an empty rendering fails and is never recorded as the placement |
| `StatefulReconcile.ReconcileIntended` | reactk/rendering/stateful_reconciler.py:200-204 | corrected, the placement becomes the rendering, and the registry and effects only grow |
| `StatefulReconcile.ReconcileRegistersRendering` | reactk/rendering/stateful_reconciler.py:134-204 | after a corrected reconcile succeeds, every rendered node has a registered resource |
| `TkActions.MakeCreate` | react_tk/rendering/actions/actions.py:21-31 | a `Create` carries the next node's full computed values as its diff and fails exactly when computing them fails |
| `TkActions.Delegations` | react_tk/rendering/actions/actions.py:70-141 | `Place` and `Replace` answer node, diff and `is_creating_new` from their inner action; only a create creates, and a creating action is truthy |
| `TkActions.Uid` | react_tk/rendering/actions/actions.py:61-140 | every action but `Replace` reports its node's uid; `Replace` reports the replaced entry's |
| `TkActions.Truthy` | react_tk/rendering/actions/actions.py:55-56 | an action is falsy exactly when it is an update whose diff is empty |
| `TkActions.CompatDeclarationsDiffer` | react_tk/rendering/actions/actions.py:149 | the two `Compat` literal types share only "update" |
| `TkBackend.AsMapping` | reactk/tk/reconcilers/window_reconciler.py:65-69 | succeeds exactly on a dict, giving its entries |
| `Traces.Sanitize` | reactk/model/trace/render_frame.py:9 | the result has only word characters, is no longer than the input, and is non-empty when the input is |
| `Traces.SanitizeFrom` | reactk/model/trace/render_frame.py:35 | the result has only word characters and is no longer than the input; it is non-empty unless the input is empty or opens with a non-word character that continues a run already replaced |
| `Traces.SanitizeWordChars` | reactk/model/trace/render_frame.py:9 | a string of word characters is left as it is |
| `Traces.SanitizeIdempotent` | reactk/model/trace/render_frame.py:35 | sanitising twice is sanitising once |
| `Traces.SanitizeCollapsesRuns` | reactk/model/trace/render_frame.py:9 | a run of several non-word characters becomes a single `_` |
| `Traces.Lower` | reactk/model/trace/render_frame.py:35 | lowering keeps the length, maps each ASCII capital to its small letter and keeps every other character |
| `Traces.FrameToString` | reactk/model/trace/render_frame.py:27-43 | the safe display uses only `[a-z0-9_]` and is the key, or else `{invocation}+{lineno}_{Type}`, sanitised and lowercased; other displays give the key verbatim, the type name alone for a negative invocation, and otherwise `:{lineno}{subscript}〉{Type}`; the result is non-empty when the frame has a key, an invocation or a type name |
| `Traces.SafeKeylessFrame` | reactk/model/trace/render_frame.py:30-35 | for a keyless frame with a non-negative invocation and line and a class name of word characters, the safe display is `{invocation}_{lineno}_{type}` lowercased: only the `+` is replaced |
| `Traces.SanitizePlus` | reactk/model/trace/render_frame.py:9 | `a+b_name` of word strings sanitises to `a_b_name` |
| `Traces.SanitizeWordPrefix` | reactk/model/trace/render_frame.py:9 | a leading run of word characters is kept, and ends any run of replaced characters |
| `Traces.AddFrame` | reactk/model/trace/render_trace.py:22-25 | `trace + frame` is one frame longer, with the old frames first |
| `Traces.Concat` | reactk/model/trace/render_trace.py:22-25 | `trace + trace` has the frames of both, in order |
| `Traces.ConcatAssociative` | reactk/model/trace/render_trace.py:22-30 | trace addition is associative, adding a frame to a sum adds it to the right operand, and the empty trace is the unit |
| `Traces.Glue` | reactk/model/trace/render_trace.py:35-39 | a part is appended with the delimiter in front exactly when something precedes it and the part does not start with a non-word character |
| `Traces.Parts` | reactk/model/trace/render_trace.py:33 | one rendered part per frame, in order |
| `Traces.ToString` | reactk/model/trace/render_trace.py:32-41 | the empty trace renders as "" and a one-frame trace as that frame's display |
| `Traces.ToStringAddFrame` | reactk/model/trace/render_trace.py:33-39 | rendering a trace one frame longer glues that frame's display onto the rendering of the shorter trace, as one pass of the loop does |
| `Traces.Uid` | reactk/model/shadow_node.py:78-80 | a node traced by one keyed frame has that key, verbatim, as its uid |
| `Traces.EmptyTraceRendersEmpty` | reactk/model/trace/render_trace.py:32-41 | the empty trace renders as "" in every display |
| `Traces.SafeTraceCharacters` | reactk/model/trace/render_trace.py:32-41 | the safe display of a trace uses only `[a-z0-9_]` |
| `Traces.JoinSafe` | reactk/model/trace/render_trace.py:35-39 | joining safe parts with a safe delimiter gives a safe string |
| `Traces.ToStringConcat` | reactk/model/trace/render_trace.py:32-41 | when no frame renders to "", the rendering of `t + u` is the rendering of `t` glued to that of `u` |
| `Traces.JoinConcat` | reactk/model/trace/render_trace.py:35-39 | joining `ps + qs` glues the two joins, when `qs` has no empty part |
| `Traces.GlueAssociative` | reactk/model/trace/render_trace.py:35-39 | gluing is associative once the middle part is non-empty |
| `Traces.UidNotInjective` | reactk/model/shadow_node.py:78-80 | the "id" display is not injective: one frame keyed "a.b" and two frames keyed "a" and "b" share a uid |
| `VMapping.DeepMerge` | reactk/model2/prop_model/v_mapping.py:145-158 | the keys are the union of both sides'; a key of `b` takes `b`'s value unless both values are Mappings, which merge; a key only in `a` keeps `a`'s |
| `VMapping.DeepMergeNested` | reactk/model2/prop_model/v_mapping.py:150-153 | on a collision of two Mappings the value is their merge, whose keys are the union of theirs |
| `VMapping.DeepMergeEmptyRight` | reactk/model2/prop_model/v_mapping.py:145-158 | merging with `{}` changes nothing |
| `VMapping.DeepMergeSelf` | reactk/model2/prop_model/v_mapping.py:145-158 | merging a dict into itself changes nothing |
| `VMapping.DeepMergeOverlayIdempotent` | reactk/model2/prop_model/v_mapping.py:145-158 | laying the same overlay down a second time changes nothing |
| `VMapping.ToDict` | reactk/model2/prop_model/v_mapping.py:30-36 | a Mapping is taken as it is; an iterable gives unique keys, each key that occurs holding its last value |
| `VMapping.ContainsVia` | reactk/model2/prop_model/v_mapping.py:38-43 | `in` is false exactly on KeyError and true on success; other exceptions propagate |
| `VMapping.GetVia` | reactk/model2/prop_model/v_mapping.py:45-49 | `get` returns the found value, the default on KeyError, and propagates other exceptions |
| `VMapping.GetAgreesWithContains` | reactk/model2/prop_model/v_mapping.py:38-49 | a key found by `in` is returned by `get`; a missing key makes `get` return the default; other failures surface from both |
| `VMapping.Update` | reactk/model2/prop_model/v_mapping.py:117-134 | it succeeds exactly when every argument has the receiver's concrete class, else TypeError; the result has the receiver's class |
| `VMapping.MergeInto` | reactk/model2/prop_model/v_mapping.py:123-132 | it succeeds exactly when every argument has the class; the result is the receiver's items with each argument's items put in, in order |
| `VMapping.PutAllAppend` | reactk/model2/prop_model/v_mapping.py:123-132 | folding `xs + ys` is folding `xs` and then `ys` |
| `VMapping.FromSeqOfUnique` | reactk/model2/prop_model/v_mapping.py:30-36 | re-keying an already keyed dict changes nothing |
| `VMapping.UpdateRightBiased` | reactk/model2/prop_model/v_mapping.py:117-134 | `update` is right-biased: each key holds the last value the arguments give for it, or the receiver's when none does |
| `WidgetReconciler.CompatBy` | reactk/tk/widget.py:81-88 | a different class name means recreate; otherwise the props are diffed, which can fail, and a non-empty diff means replace, an empty one update |
| `WidgetReconciler.WidgetCompat` | reactk/tk/widget_wrapper.py:28-35 | recreate exactly when the types differ; for equal types it succeeds iff the props diff does, and is update exactly when that diff is empty |
| `WidgetReconciler.ReconcilerCompat` | reactk/tk/reconcilers/widget_reconciler.py:37-43 | as written, the verdict is recreate exactly when the new node's type is not "RenderedNode" |
| `WidgetReconciler.ReconcilerAlwaysRecreates` | reactk/tk/reconcilers/widget_reconciler.py:37-43 | as written, a widget node is recreated on every render, even against the very same node |
| `WidgetReconciler.ReconcilerCompatIntended` | reactk/tk/reconcilers/widget_reconciler.py:37-43 | corrected, the reconciler's compatibility agrees with the wrapper's and `Widget`'s for the node the entry holds |
| `WidgetReconciler.IntendedRecreatesOnTypeChange` | reactk/tk/reconcilers/widget_reconciler.py:37-43 | corrected, a widget is recreated exactly when its type changes, and otherwise replaced or updated |
| `WidgetReconciler.SameTypeReplaces` | reactk/tk/widget.py:81-88 | two same-type nodes whose schema has a section diffed as a whole, present on both sides, are always replaced |
| `WidgetReconciler.WidgetSchemaFacts` | reactk/tk/widget.py:32-79 | neither `font` nor `Pack` is diffed key by key, and a label's text defaults to a single space set through `configure` |
| `WidgetReconciler.WidgetNamesUnique` | reactk/tk/widget.py:32-79 | the label and pack schemas have distinct entry names |
| `WidgetReconciler.SectionsWellKeyed` | reactk/tk/widget.py:32-79 | every section of the widget schemas is well keyed |
| `WidgetReconciler.WidgetsAlwaysReplace` | reactk/tk/widget.py:78-88 | any two widgets of the same type are replaced, never updated in place, because `Pack` is in every diff |
| `WidgetReconciler.PackChoice` | reactk/tk/reconcilers/widget_reconciler.py:60-72 | there is no position exactly when the master has no slaves; otherwise the anchor is one of the slaves |
| `WidgetReconciler.PackInto` | reactk/tk/reconcilers/widget_reconciler.py:60-72 | packing adds exactly the new widget to the slaves, as a multiset |
| `WidgetReconciler.Clamp` | reactk/tk/reconcilers/widget_reconciler.py:60-72 | the clamped position is `at` within `[0, n]`, 0 below and `n` above |
| `WidgetReconciler.PackLandsAt` | reactk/tk/reconcilers/widget_reconciler.py:60-72 | the new widget becomes the clamped `at`-th slave of its master, and the other slaves keep their order |
| `WidgetReconciler.PackOptions` | reactk/tk/reconcilers/widget_reconciler.py:48-51 | a pack call keeps every option of the "Pack" section except "after" and "before", and drops the one the chosen position sets |
| `WidgetReconciler.PackAtCalls` | reactk/tk/reconcilers/widget_reconciler.py:60-72 | without a truthy "Pack" section there are no calls; a truthy non-dict fails; otherwise one `pack_configure` with its options, at the position the index rule picks |
| `WidgetReconciler.PackReplaceCalls` | reactk/tk/reconcilers/widget_reconciler.py:53-58 | without a truthy "Pack" section there are no calls; a truthy non-dict fails; otherwise the widget is packed right after the one it replaced, with the other options |
| `WidgetReconciler.LocalConfigure` | reactk/tk/reconcilers/widget_reconciler.py:74-79 | the local `configure` holds the diff's "configure" options plus the converted font when the diff has one; a font that fails to convert fails |
| `WidgetReconciler.UpdateCallsBy` | reactk/tk/reconcilers/widget_reconciler.py:74-81 | no calls when the local `configure` is empty, else one `configure`, given the diff's section as written, or the local dict when corrected |
| `WidgetReconciler.UpdateCalls` | reactk/tk/reconcilers/widget_reconciler.py:74-81 | as written, every call `_update` makes is a `configure` of the given widget |
| `WidgetReconciler.UpdateCallsIntended` | reactk/tk/reconcilers/widget_reconciler.py:74-81 | corrected, every call is a `configure` of the given widget, and a diff with a "configure" section gives the same calls as written |
| `WidgetReconciler.FontLostWithoutConfigure` | reactk/tk/reconcilers/widget_reconciler.py:74-81 | as written, a diff that changes only the font makes a `configure()` call with no options |
| `WidgetReconciler.IntendedUpdateAppliesFont` | reactk/tk/reconcilers/widget_reconciler.py:74-81 | corrected, the converted font reaches `configure` whenever the diff has one, next to exactly the "configure" section's options |
| `WidgetReconciler.DoCreate` | reactk/tk/reconcilers/widget_reconciler.py:91-104 | a recreation fails; a `Create` in an unrendered container is KeyError, else it makes a label in the container's widget, applies all props and registers it; an `Update` applies a non-empty diff and migrates the registered `RenderedNode` in place, so its registry slot shows the next node; the handle is the incoming one |
| `WidgetReconciler.Fresh` | reactk/tk/reconcilers/widget_reconciler.py:119-120 | the inner action a recreation runs creates the next node in the same container |
| `WidgetReconciler.PlaceStep` | reactk/tk/reconcilers/widget_reconciler.py:119-127 | a recreating `Place` creates the new widget, destroys the old one and packs the new one at `at`; otherwise the inner action is run and its widget packed at `at` |
| `WidgetReconciler.ReplaceStep` | reactk/tk/reconcilers/widget_reconciler.py:128-136 | a recreating `Replace` creates the new widget, packs it after the replaced one and destroys the old one; otherwise the inner action's widget is packed after the replaced one |
| `WidgetReconciler.RunAction` | reactk/tk/reconcilers/widget_reconciler.py:106-138 | a falsy action does nothing; calls and registrations only grow; an update configures and migrates its entry in place; an unplace unpacks; `Place` and `Replace` run their steps |
| `WidgetReconciler.PlaceRecreateOrder` | reactk/tk/reconcilers/widget_reconciler.py:119-122 | a recreating `Place` creates the new widget, destroys the old one, then packs the new one |
| `WidgetReconciler.ReplaceRecreateOrder` | reactk/tk/reconcilers/widget_reconciler.py:128-131 | a recreating `Replace` creates, packs after the replaced widget, and destroys the old widget last |
| `WidgetReconciler.ReplaceLeavesReplacedPacked` | reactk/tk/reconcilers/widget_reconciler.py:128-136 | a `Replace` never unpacks anything, and destroys only the widget a recreation supersedes |
| `WidgetReconciler.WrapperPlace` | reactk/tk/widget_wrapper.py:64-81 | a container that is not a widget is a TypeError; without a truthy "Pack" section nothing happens; otherwise at most one `pack_configure`, into the container |
| `WidgetReconciler.WrapperPlaceAgrees` | reactk/tk/widget_wrapper.py:64-81 | when the "Pack" section has no `in_`, the wrapper places exactly as the reconciler packs, into the container |
| `WidgetReconciler.WrapperReplace` | reactk/tk/widget_wrapper.py:87-92 | it succeeds exactly when the "Pack" section is a dict without "after"; then it packs the widget after itself with those options and unpacks it |
| `WidgetReconciler.WrapperReplaceIgnoresOther` | reactk/tk/widget_wrapper.py:87-92 | the result is the same whatever `other` is, no call names it, and the widget ends up unpacked |
| `WidgetReconciler.WrapperMigrate` | reactk/tk/widget_wrapper.py:104-107 | a migrated wrapper has the same class and Tk object and holds the new node |
| `WidgetReconciler.MigrateIsSameResource` | reactk/tk/widget_wrapper.py:104-107 | a migrated wrapper has the new node's uid; it equals (with `is_same_resource` comparing the widgets, lines 46-47) exactly the wrappers of its class around the same widget whose node has the new node's class, so it equals the wrapper it came from whenever the class is kept, whatever the uids |
| `WindowReconciler.Kept` | reactk/tk/reconcilers/window_reconciler.py:66 | a key is kept exactly when the dict gives it a truthy value; no more keys are kept than given |
| `WindowReconciler.FlattenAttrs` | reactk/tk/reconcilers/window_reconciler.py:66 | for each kept key, `-key` followed by its value, so the list is twice as long as the kept keys |
| `WindowReconciler.AttributesCall` | reactk/tk/reconcilers/window_reconciler.py:65-67 | no call for a falsy "attributes" section; a non-dict fails; otherwise one `attributes` call with the flattened options |
| `WindowReconciler.ConfigureCall` | reactk/tk/reconcilers/window_reconciler.py:68-69 | no call for a falsy "configure" section; a non-dict fails; otherwise one `configure` call with that dict |
| `WindowReconciler.UpdateCalls` | reactk/tk/reconcilers/window_reconciler.py:64-71 | fails exactly when a truthy "attributes" or "configure" section is not a dict; every call made is an attributes, configure or override-redirect call on the given window |
| `WindowReconciler.UpdateCallsSpec` | reactk/tk/reconcilers/window_reconciler.py:64-71 | the calls are the attribute options, then the configure options, then the override-redirect flag, each exactly when present and, for the first two, truthy, each carrying its section; an empty diff makes no calls |
| `WindowReconciler.PlaceCalls` | reactk/tk/reconcilers/window_reconciler.py:52-58 | a diff without "Geometry" is KeyError; it succeeds iff that section is a valid geometry, and then sets a geometry that parses back to its size and normalised position and shows the window |
| `WindowReconciler.ReplaceCalls` | reactk/tk/reconcilers/window_reconciler.py:60-62 | `_replace(a, b)` hides `a` and then shows `b` |
| `WindowReconciler.Swap` | reactk/tk/reconcilers/window_reconciler.py:129-136 | the recreating order hides the replaced window and shows the incoming one; the non-recreating order, as written, does the reverse |
| `WindowReconciler.DoCreate` | reactk/tk/reconcilers/window_reconciler.py:92-103 | a recreation fails; a `Create` makes a window and registers it without applying any prop; an `Update` applies a non-empty diff and migrates the registered `RenderedNode` in place, so its registry slot shows the next node; a valid host stays valid |
| `WindowReconciler.PlaceStep` | reactk/tk/reconcilers/window_reconciler.py:118-126 | a successful `Place` only adds calls and registrations, never removes them |
| `WindowReconciler.PlaceStepCalls` | reactk/tk/reconcilers/window_reconciler.py:118-126 | a creating `Place` starts with a new window registered under the next uid; a recreating one then makes exactly three more calls: destroy the old window, set the new one's geometry, show it; every `Place` ends by showing the incoming window |
| `WindowReconciler.ReplaceStep` | reactk/tk/reconcilers/window_reconciler.py:127-136 | a successful `Replace` only adds calls and registrations, never removes them |
| `WindowReconciler.ReplaceStepCalls` | reactk/tk/reconcilers/window_reconciler.py:127-136 | a creating `Replace` starts with a new window registered under the next uid; a recreating one makes exactly: new window, hide the replaced one, show the new one, destroy the old; any other ends with the swap, which as written hides the incoming window and shows the replaced one |
| `WindowReconciler.Step` | reactk/tk/reconcilers/window_reconciler.py:105-138 | a falsy action does nothing; calls and registrations only grow; an unplace withdraws; an update makes the update calls; `Place` and `Replace` run their steps |
| `WindowReconciler.RunAction` | reactk/tk/reconcilers/window_reconciler.py:105-138 | as written, the calls only grow, and a valid host running an action on handed-out windows stays valid |
| `WindowReconciler.RunActionIntended` | reactk/tk/reconcilers/window_reconciler.py:105-138 | corrected, the run differs from the as-written one only on `Replace`, and keeps a valid host valid |
| `WindowReconciler.StepKeepsValid` | reactk/tk/reconcilers/window_reconciler.py:105-138 | running an action that names only handed-out windows keeps every handle in the registry and the calls below the next fresh one |
| `WindowReconciler.UpdateCallsBelow` | reactk/tk/reconcilers/window_reconciler.py:64-71 | update calls name only the window they update, so a bound above it bounds them |
| `WindowReconciler.PlaceStepShape` | reactk/tk/reconcilers/window_reconciler.py:118-126 | a successful `Place` is the inner creation, then for a recreation the old window's destruction, then the place calls for the incoming window |
| `WindowReconciler.ReplaceStepShape` | reactk/tk/reconcilers/window_reconciler.py:127-136 | a successful recreating `Replace` is the creation, the swap to the new window and the old window's destruction; otherwise the inner creation, the update of the replaced window with the inner diff, then the swap |
| `WindowReconciler.Fresh` | reactk/tk/reconcilers/window_reconciler.py:119 | the inner action a recreation runs first is not a recreation and keeps the next node and diff |
| `WindowReconciler.PlaceCallsBelow` | reactk/tk/reconcilers/window_reconciler.py:52-58 | place calls name only the window being placed |
| `WindowReconciler.PlaceStepValid` | reactk/tk/reconcilers/window_reconciler.py:122-126 | a `Place` of windows the host handed out keeps the host valid |
| `WindowReconciler.PlaceRecreateValid` | reactk/tk/reconcilers/window_reconciler.py:118-121 | destroying a handed-out window and then making calls on handed-out windows keeps the host valid |
| `WindowReconciler.ReplaceStepValid` | reactk/tk/reconcilers/window_reconciler.py:127-136 | a `Replace` keeps the host valid |
| `WindowReconciler.ReplaceHidesIncoming` | reactk/tk/reconcilers/window_reconciler.py:131-136 | as written, a `Replace` whose inner action creates a window hides that new window and shows the one it was meant to replace |
| `WindowReconciler.ReplaceShowsIncoming` | reactk/tk/reconcilers/window_reconciler.py:127-136 | corrected, every successful `Replace` leaves the incoming window shown, and the replaced one hidden unless it is the incoming one |
| `WindowReconciler.WindowCompat` | reactk/tk/window_wrapper.py:167-169 | every window is compatible with every next window: the verdict is always "update" |
| `WindowReconciler.WindowsUpdateInPlace` | reactk/tk/window_wrapper.py:167-169 | a window rendered again under the same uid, already placed, is always updated in place, never replaced or recreated |

## Left out

- Threads and main-thread dispatch (`run_in_owner`, `after`, the Tk mainloop thread), logging and `print`: they only schedule or report the modelled work.
- Real Tk effects. Every call the reconcilers and wrappers make is recorded as a `Call` on a host. Tk's packer state is a parameter: the master's current slaves, and the screen size for negative coordinates.
- `ComputeTreeActions` and the per-node reconciler lookup in `force_rerender`: rendering/compute.py is not part of this model, so `ForceRerenders.Prepare` stops where actions are computed.
- `create_props` and the other reflection-based schema builders: schemas are given as values. Only `get_attrs_downto` and `get_mro_up_to` are modelled, over classes compared by name, with the objects `getattr` returns given directly (no descriptors).
- Object identity and aliasing. `RenderedNode.migrate` changes the registered object in place; `TkReconcileState.MigrateIn` updates every registry slot whose entry equals it, which would also catch an equal but distinct object. `new_transient` shares its dict with the original state; here both are values, so writes through one are not seen through the other. Identity comparisons (`PropVector !=`, `is_same_resource`) are parameters or modelled as always unequal, as `!=` on two distinct objects is.
- The iteration order of dicts and sets that are not insertion-ordered sequences here: `KeyOrder` is a parameter for the window attributes. `PropDiff.Diff` iterates the receiver's schema order instead of a Python set, so when several keys fail, the model may report a different one than a run would.
- `format_subscript`, `RenderFrame.create`, `to_sequenced`, typeguard's `check_type` and the prop converters: they are parameters.
- The dataclass arity of the reactk `future_actions` classes (future_actions.py:62-103 declare one or two fields). stateful_reconciler.py and generate_actions.py build `Unplace(prev, container)` (generate_actions.py:60), `Place(container, at, inner)` (63-67) and `Replace(container, prev, inner)` (69, 74, 76), with more arguments than that, which would raise TypeError. The model follows the call sites.
- `GenerateActions.Walk`: `action.is_creating_new` (generate_actions.py:125) is defined by no class of future_actions.py, so as written it raises AttributeError. The model reads it as react_tk's actions define it, and reads `Recreate`, which is not among them, as creating.
- `GenerateActions.Compute`: `parent_resource.kids` (generate_actions.py:105) reads an attribute that `Resource` (model/resource.py:14-60) does not define, so as written every call on a registered parent raises AttributeError. The model reads it as the kids of the resource's node.
- `StatefulReconcile.ComputeActions`: `resource.kids` (stateful_reconciler.py:138) has the same missing attribute, and is read the same way.
- `Renderers.RenderOne`: only the `ComponentMount` draft's merges go through `__merge__` of model/shadow_node.py. The `RootRenderer` draft's `KIDS` merge, its `_with_trace` through `RenderTraceAccessor`, the render sink's `KIDS` merge and `TopLevelNode().__merge__(KIDS=...)` use the node module of reactk/model/renderable, which is not part of this model; they are taken as field updates that cannot fail. The kids tuple and the trace reach `__merge__` as non-None stand-ins, since the prop model only stores them.
- `WindowWrapper.replace` and `WindowWrapper.place` are modelled only through the reconciler's `_replace` and `_place`, which they duplicate; the wrapper's Tk `place()` geometry call is not modelled separately.
- `PyValue.PyEqReflexive`: NaN is not modelled, so Python `==` is reflexive on every modelled value.
- Floating point is modelled as exact reals: a float prop's int promotion is exact.
- `Geometries.GeometryOf`: only int coordinates are modelled; any other value of a numeric key is reported as a TypeError, where Python would go on with floats.

## Findings

| source | as written | input that shows it | evidently intended | confidence | as-written member | corrected member |
|---|---|---|---|---|---|---|
| reactk/rendering/component/render_sink.py:96-98 | `_run_render` tests `isinstance(component, ShadowNode)`, so a Component is never rendered and `run` returns the empty `rendered` | a component whose render pushes one node | render a Component into the sink and return what it pushed | not executed | `RenderSinks.RunDropsComponentOutput` | `RenderSinks.RunIntended` |
| reactk/rendering/stateful_reconciler.py:200-201 | `reconcile` calls `compute_reconcile_actions(rendering)` without the parent, which raises TypeError | any rendering, the empty one included | pass the parent, compute the actions and carry them out | not executed | `StatefulReconcile.ReconcileAlwaysFails` | `StatefulReconcile.ReconcileRegistersRendering` |
| reactk/tk/reconcilers/window_reconciler.py:131-136 | a non-recreating `Replace` calls `_replace(cur.resource, existing.resource)`, which hides the incoming window and shows the replaced one | a `Replace` whose inner action is a `Create` | hide the replaced window and show the incoming one, as the recreating branch does | not executed | `WindowReconciler.ReplaceHidesIncoming` | `WindowReconciler.ReplaceShowsIncoming` |
| reactk/tk/reconcilers/widget_reconciler.py:37-43 | `get_compatibility` compares `type(older).__name__`, and `older` is the `RenderedNode` entry, so the name is always "RenderedNode" | the same label node rendered twice | compare the type of the node the entry holds | not executed | `WidgetReconciler.ReconcilerAlwaysRecreates` | `WidgetReconciler.IntendedRecreatesOnTypeChange` |
| reactk/tk/reconcilers/widget_reconciler.py:74-81 | `_update` adds the converted font to a local `configure` dict but calls `configure(**diff.get("configure", {}))` | a diff whose only change is the font | configure the widget with the local dict that holds the font | not executed | `WidgetReconciler.FontLostWithoutConfigure` | `WidgetReconciler.IntendedUpdateAppliesFont` |
