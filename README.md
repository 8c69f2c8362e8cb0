# Drawing and editing tools of the map client

This project models the two editing plugins of the GeoExt/OpenLayers map client in Dafny. It then proves properties of them.

- **The drawing tool** (`gxp.plugins.FeatureDrawing`) numbers its configured layers. It gives each layer of type Poly, Line or Point a draw control. It offers one menu check item per such layer. Checking an item:
  - makes that layer current (`currentDrawNum`, `currentEditableLayer`);
  - presses the split button;
  - deactivates every other layer's control.

  Releasing the button unchecks the menu. The save listeners of each layer set the feature label from an optional checkbox and prompt, and redraw the current WMS layer.
- **The editing tool** (`gxp.plugins.FeatureEditor2`) has three menu entries: Modify, Move and Delete. Choosing one tears down every control, shows every editable layer and installs a feature-info listener. The first feature a map click returns is resolved in two steps:
  - the target layer is the first configured layer of the same feature type;
  - inside that layer, the first feature with an equal fid is reused, or else the reprojected raw feature is appended.

  The resolved feature is styled when the layer holds points. Then one of two things happens. A Modify or Move control selects the feature. Or, after a "yes" in the confirmation dialog, the feature is removed (no fid) or marked for deletion (with a fid).

Both tools are classes. Their layers are an `array` of records. Methods that change state state the whole new state in their `ensures`. Specification functions describe the layer sequences, and lemmas about those functions carry the properties:

- the first-match searches;
- deactivation of all but the current layer, and where it throws;
- the unchecking cascade;
- feature resolution, its idempotence, and both delete outcomes.

Each tool's `Valid()` predicate is an invariant that every method keeps. Layers are well formed, references stay in range, at most one edit control is attached, and no listener is live while a control is attached or a deletion awaits confirmation.

JavaScript details are modelled explicitly:

- Fids use JavaScript `==`, so a missing fid (null or undefined) equals a missing fid. They are `Option<string>`.
- `FeatureEditor2Constants` has no `DELETE` key. The Delete entry therefore stores `undefined`, which is also the initial editor type. `EditorType.Delete` stands for that value, and the constructor starts in it.
- An Ext button's `toggle(state)` runs its toggle listener only when the state changes.
- `setChecked` fires `checkchange` only when it changes an item's state. Ext sets the item's state first, then runs the tool's handler. The item's action switches the layer's control only after that handler returns, so a handler that throws leaves the control as it was.
- OpenLayers `ModifyFeature.destroy` detaches the control from its layer (`layer` becomes null). `commitAll` unselects only attached controls.
- Calling `deactivate` on the missing control of an unsupported layer throws. Handlers that can throw return `ok == false`, and their `ensures` give the partial state at the throw.

Several inputs become method parameters:

- the answer of `prompt`;
- the value of the label checkbox;
- the answer of the delete dialog;
- the features a feature-info request returns;
- the reprojection function.

## Model

| member | source | states |
|---|---|---|
| Menu.LastChecked | src/script/plugins/FeatureEditor2.js:404-407 | the last checked item of a menu, if any: it is checked and no later item is; None means no item is checked |
| Menu.LastCheckedStep | src/script/plugins/FeatureDrawing.js:416-420 | extending the visited prefix by item `i` makes `i` the last checked one exactly when it is checked |
| FeatureDrawing.HandlerFor | src/script/plugins/FeatureDrawing.js:184-250 | Poly, Line and Point layers get the Polygon, Path and Point handler; any other type gets no control |
| FeatureDrawing.Configured | src/script/plugins/FeatureDrawing.js:178-250 | the `i`-th configured layer gets `num = i`, an inactive control of its own kind exactly when its type is supported, and an unchecked item |
| FeatureDrawing.FailurePoint | src/script/plugins/FeatureDrawing.js:263-273 | where the deactivation loop throws: the first non-current layer without a control, or the end when there is none |
| FeatureDrawing.MenuLayers | src/script/plugins/FeatureDrawing.js:294-386 | the menu holds exactly the supported layers, in increasing layer order |
| FeatureDrawing.ItemAtPosition | src/script/plugins/FeatureDrawing.js:401 | as written: the layer of the item at menu position `currentDrawNum`; it is always a supported layer |
| FeatureDrawing.ItemForLayer | src/script/plugins/FeatureDrawing.js:401 | corrected: the item bound to layer number `currentDrawNum`, present exactly when that layer is in the menu |
| FeatureDrawing.ConfiguredLayersAreWellFormed | src/script/plugins/FeatureDrawing.js:178-250 | every configured layer satisfies the layer invariant, with the handler its type calls for |
| FeatureDrawing.CurrentLayerUntouched | src/script/plugins/FeatureDrawing.js:263-273 | deactivation never changes a layer whose `num` is `currentDrawNum` |
| FeatureDrawing.OthersInactive | src/script/plugins/FeatureDrawing.js:263-273 | when deactivation completes, every other layer has an inactive control |
| FeatureDrawing.FailsOnlyOnUnsupported | src/script/plugins/FeatureDrawing.js:263-273 | for well-formed layers, deactivation completes if and only if every non-current layer has a supported type |
| FeatureDrawing.FailurePointDependsOnShape | src/script/plugins/FeatureDrawing.js:263-273 | where deactivation throws depends only on the layers' numbers and which of them have a control |
| FeatureDrawing.DeactivationIdempotent | src/script/plugins/FeatureDrawing.js:263-273 | deactivating all but the current layer twice equals doing it once |
| FeatureDrawing.AfterCheckActivatesOnlyCurrent | src/script/plugins/FeatureDrawing.js:310-318 | for well-formed layers with no unsupported type, a check leaves the checked layer's item checked and its control active, and every other control inactive |
| FeatureDrawing.AfterCheckThrowKeepsControl | src/script/plugins/FeatureDrawing.js:310-318 | when another layer is unsupported, the sweep throws before the action runs: the checked layer keeps its control state, and only its item is checked |
| FeatureDrawing.AllSupportedMenuIsIdentity | src/script/plugins/FeatureDrawing.js:294-386 | with only supported layers, menu position `p` holds layer `p` |
| FeatureDrawing.PositionLookupRightWhenAllSupported | src/script/plugins/FeatureDrawing.js:399-402 | with only supported layers, the position lookup picks the current layer's item |
| FeatureDrawing.PositionLookupPicksWrongLayer | src/script/plugins/FeatureDrawing.js:401 | with layers [unsupported, Point, Line] and layer 1 current, the position lookup picks layer 2 while layer 1's item is intended |
| FeatureDrawing.DrawTool.constructor | src/script/plugins/FeatureDrawing.js:178-250 | layer `j` becomes `Configured(configs[j], j)`; the current layer number is 0, no layer is current, the label is empty |
| FeatureDrawing.DrawTool.DeactivateAllButCurrent | src/script/plugins/FeatureDrawing.js:263-273 | the layers become `AfterDeactivation` of the old ones; `ok` holds if and only if the loop does not throw |
| FeatureDrawing.DrawTool.ReleaseItems | src/script/plugins/FeatureDrawing.js:414-421 | every checked item is unchecked and its control deactivated; the last checked item's layer becomes current |
| FeatureDrawing.DrawTool.ToggleButton | src/script/plugins/FeatureDrawing.js:414-421 | the button takes the new state; only a release of a pressed button runs the unchecking cascade, otherwise nothing else changes |
| FeatureDrawing.DrawTool.OnMenuItemCheck | src/script/plugins/FeatureDrawing.js:310-318 | the item's layer becomes current and the button follows the item. When checked, the button shows the item's text: the configured menu text if it is non-empty, else the type's default. The layers become `AfterCheck`. `ok` holds if and only if every other layer is supported, and then only that layer's control is active; on a throw, its control is left as it was. When unchecked, a pressed button is released |
| FeatureDrawing.DrawTool.CheckItem | src/script/plugins/FeatureDrawing.js:310-318 | for a checked item: current layer, pressed button, the item's text, layers as `AfterCheck`, and `ok` exactly when every other layer is supported |
| FeatureDrawing.DrawTool.UncheckItem | src/script/plugins/FeatureDrawing.js:310-314 | for an unchecked item: the layer becomes current, the button is released, and a pressed button's release cascade runs over the other checked items |
| FeatureDrawing.DrawTool.OnSaveStart | src/script/plugins/FeatureDrawing.js:187-195 | without a checkbox the label is unchanged; an unchecked box empties it; a checked box sets it to the prompt answer, null on cancel |
| FeatureDrawing.DrawTool.OnSaveSuccess | src/script/plugins/FeatureDrawing.js:196-198 | the WMS counterpart of the current layer, not of the saving one, is redrawn once; the handler throws when no layer is current |
| FeatureDrawing.DrawTool.SetCurrentEditableLayer | src/script/plugins/FeatureDrawing.js:457-459 | the given layer becomes current |
| FeatureDrawing.DrawTool.BuildAction | src/script/plugins/FeatureDrawing.js:294-411 | every fresh item starts checked exactly when its layer's control is active; the button is unpressed with its own text, and `currentDrawNum` is reset to 0 |
| FeatureDrawing.DrawTool.OnButtonClick | src/script/plugins/FeatureDrawing.js:399-411 | a release unchecks every item, making the last checked item's layer current. It also restores the button text, redraws every layer once, and leaves `ok` true. A press re-checks the current layer's item. If the item is unchecked, this has the whole effect of checking it, including its text and `ok`. If the item is already checked or absent, nothing else changes |
| FeatureEditor.ModeAt | src/script/plugins/FeatureEditor2.js:428-493 | entries 0, 1 and 2 select Modify, Move and Delete; `IndexOf` inverts it |
| FeatureEditor.EveryModeHasAnEntry | src/script/plugins/FeatureEditor2.js:428-493 | every editor type is selected by exactly one menu entry |
| FeatureEditor.FirstLayerOfType | src/script/plugins/FeatureEditor2.js:230-236 | the first layer whose protocol feature type matches; None when no layer matches |
| FeatureEditor.FirstWithFid | src/script/plugins/FeatureEditor2.js:242-247 | the first feature whose fid equals the raw fid under `==`; None when there is none |
| FeatureEditor.FindTargetLayer | src/script/plugins/FeatureEditor2.js:230-236 | the search loop with `break` returns the first layer of the feature type |
| FeatureEditor.FindStoredFeature | src/script/plugins/FeatureEditor2.js:242-247 | the search loop with `break` returns the first feature with the raw fid |
| FeatureEditor.ResolvedIndex | src/script/plugins/FeatureEditor2.js:240-259 | the resolved feature sits at a stored feature with the raw fid, or at the end of the list |
| FeatureEditor.Resolved | src/script/plugins/FeatureEditor2.js:240-278 | after resolution the resolved position is inside the layer's feature list |
| FeatureEditor.ResolvedReusesStored | src/script/plugins/FeatureEditor2.js:240-247 | with a stored match the list keeps its length, only the match may be restyled, and the layer is visible |
| FeatureEditor.ResolvedAppendsRaw | src/script/plugins/FeatureEditor2.js:249-259 | without a match the list grows by exactly the reprojected raw feature, appended at the end, and the layer is visible |
| FeatureEditor.ResolvedFeatureHasRawFid | src/script/plugins/FeatureEditor2.js:240-276 | the resolved feature has the raw feature's fid |
| FeatureEditor.ResolutionIdempotent | src/script/plugins/FeatureEditor2.js:240-278 | resolving the same raw feature twice adds nothing and resolves to the same position |
| FeatureEditor.UnsavedFeatureRemoved | src/script/plugins/FeatureEditor2.js:336-338 | confirming deletion of a feature without fid removes it and keeps every other feature in order |
| FeatureEditor.SavedFeatureMarked | src/script/plugins/FeatureEditor2.js:339-346 | confirming deletion of a feature with a fid keeps it in place, in state DELETE with render intent "select" |
| FeatureEditor.EditTool.constructor | src/script/plugins/FeatureEditor2.js:383-384 | the tool starts on entry 0, unpressed, with nothing checked, no feature, no control and no listener |
| FeatureEditor.EditTool.DestroyExistingControls | src/script/plugins/FeatureEditor2.js:184-196 | both edit controls are detached and deactivated and an existing listener is destroyed |
| FeatureEditor.EditTool.Init | src/script/plugins/FeatureEditor2.js:154-161 | controls are destroyed, then every editable layer becomes visible and nothing else about it changes |
| FeatureEditor.EditTool.CommitAll | src/script/plugins/FeatureEditor2.js:165-180 | every editable layer becomes invisible; an attached Modify or Move control unselects its feature |
| FeatureEditor.EditTool.ReleaseButton | src/script/plugins/FeatureEditor2.js:402-413 | all entries unchecked, `activeIndex` at the last checked one, layers hidden, controls unselected then destroyed, listener destroyed |
| FeatureEditor.EditTool.ToggleButton | src/script/plugins/FeatureEditor2.js:402-413 | the button takes the new state. Only a release of a pressed button unchecks the entries, with `activeIndex` at the last checked one, then commits and tears down. Otherwise nothing else changes |
| FeatureEditor.EditTool.CreateListener | src/script/plugins/FeatureEditor2.js:200-219 | any previous listener is destroyed and an active one installed |
| FeatureEditor.EditTool.EnterMode | src/script/plugins/FeatureEditor2.js:433-440 | layers shown, controls destroyed, the entry's editor type set, and only then a live listener installed |
| FeatureEditor.EditTool.OnModeItemCheck | src/script/plugins/FeatureEditor2.js:428-441 | `activeIndex` becomes the entry and the button follows it; checking enters the entry's mode; unchecking a pressed button runs the release |
| FeatureEditor.EditTool.OnButtonClick | src/script/plugins/FeatureEditor2.js:394-399 | a release tears down as the toggle listener does, with `activeIndex` at the last checked entry. A press checks the `activeIndex` entry. Unless the entry was already checked, this enters its mode: every layer is shown, the controls are destroyed, and a live listener is installed |
| FeatureEditor.EditTool.ResolveIn | src/script/plugins/FeatureEditor2.js:240-278 | layer `t` becomes `Resolved` of its old value, nothing else changes, and the resolved position is returned |
| FeatureEditor.EditTool.OnGetFeatureInfo | src/script/plugins/FeatureEditor2.js:221-365 | an empty result changes nothing; with no matching layer only the current feature and layer are overwritten; otherwise the first matching layer is resolved, the feature made current, a Modify or Move control created that selects it (or deletion awaits confirmation), and the listener deactivated |
| FeatureEditor.EditTool.OnDeleteAnswer | src/script/plugins/FeatureEditor2.js:334-352 | on "yes" the current feature is removed or marked as in `AfterDeleteConfirmed`; on "no" it is untouched. Either way a pressed button is released, with `activeIndex` at the last checked entry |

## Left out

- Presentation is not modelled: button and menu construction, icons, tooltips, button texts of the editing tool, and i18n strings.
- Network I/O is not modelled. The WMS GetFeatureInfo request and the save strategy's persistence appear only as events with their data as parameters.
- Geometry reprojection (`clone().transform(...)`) is floating-point library code. It is an uninterpreted function parameter.
- The `prompt` and `Ext.MessageBox` dialogs are not modelled as UI. Their answers are parameters.
- The delete dialog is modal and asynchronous. `OnDeleteAnswer` is its callback. While it is open, the mode entries and the button require that no answer is pending.
- OpenLayers control internals are not modelled: reshaping, dragging, rotating, resizing, drawing handlers and vertex rendering. A control is a record with a mode, a layer, an active flag and a selected feature.
- The `afterfeaturemodified` event of the delete branch is what a save strategy listens for to persist the deletion. That persistence is network I/O and is not modelled. The `drawFeature` call is rendering only. The model keeps the state and render intent the branch sets.
- The `fail:` entries of the save listeners evaluate `console.log` once, at construction. They register no handler.
- `addActions` calls an undefined global `getAction()`. `deactivateOtherButtons` is code outside these two files. Neither is part of this model.
- The `set*FeaturesAttributes` hooks are empty.
- `destroy`, `enable` and `disable` are left out. `disable` only adds `ToggleButton(false)` to disabling the button.
- The radio-group behaviour of Ext check items is not modelled. Checking one item does not uncheck its siblings by itself; the caller sends each `checkchange` event separately.
- FeatureDrawing.DrawTool.OnMenuItemCheck: the model binds the action in one direction only, from item to control. The other direction, from control to item, is not modelled: when `deactivateAllButCurrent` deactivates a layer's active control, the GeoExt action also unchecks that layer's item. That unchecking runs the item's `checkchange` handler re-entrantly, in the middle of the sweep. In the model, a deactivated layer's item keeps its check state. This matters only when two items are checked at once, which the radio group normally prevents. GeoExt's action code is not part of this model.
- `editControls` and `currentObject` are declared on the prototype, so all editing-tool instances share them. The model gives each tool its own copy.
- FeatureEditor.EditTool.OnDeleteAnswer: once an unsaved feature is destroyed, `currentObject.feature` still refers to it. The model keeps it as a detached value (`Unstored`). `currentObject.button` is always the tool's own button and is modelled as such.
- FeatureDrawing.DrawTool.SetCurrentEditableLayer: it accepts only one of the tool's own layers, while the source accepts any object.
- FeatureDrawing.DrawTool.OnButtonClick: the press branch uses the corrected lookup, the item of layer `currentDrawNum` (see Findings). When that layer has no item, the model does nothing. As written, the source re-checks the item at menu position `currentDrawNum`, and throws only when that position is past the last menu item.

## Findings

| source | as written | input that shows it | evidently intended | confidence | as-written member | corrected member |
|---|---|---|---|---|---|---|
| src/script/plugins/FeatureDrawing.js:401 | a press re-checks `menu.items.itemAt(currentDrawNum)`, the item at menu POSITION `currentDrawNum`, but `currentDrawNum` is a layer number and unsupported layers get no item | layers [unsupported "Circle", Point, Line] with the Point layer (num 1) current: position 1 is the Line layer's item | re-check the item of layer `currentDrawNum` | medium, not executed | FeatureDrawing.PositionLookupPicksWrongLayer | FeatureDrawing.ItemForLayer |

