/**
 * The editing tool (`gxp.plugins.FeatureEditor2`): a split button whose three
 * menu entries choose an editor type (modify vertices, move/rotate, delete).
 * Each choice installs a feature-info listener; the first feature a map click
 * returns is resolved against the configured layers and then edited or, after
 * confirmation, deleted.
 */
module FeatureEditor {
  import opened Wrappers
  import Menu
  import FeatureDrawing

  /** A projection, by its code. */
  type Projection = string

  /** A geometry, as an opaque list of coordinates: only reprojection looks at it. */
  type Geometry = seq<real>

  /** The symbolizer of an `OpenLayers.Style`. */
  datatype Style = Style(strokeColor: string, fillColor: string, strokeOpacity: real,
                         fillOpacity: real, strokeWidth: nat, pointRadius: nat, graphicName: string)

  /** The fixed square style (`virtual`) given to a resolved point feature and to every edit control. */
  const SquareMarker: Style := Style("#00CC27", "#F9190D", 1.0, 0.5, 2, 5, "square")

  /** `OpenLayers.State` of a feature; `NoState` is its initial null. */
  datatype FeatureState = NoState | StateInsert | StateUpdate | StateDelete

  /**
   * A vector feature: its fid (None for null/undefined, which `==` treats as
   * equal), the GML feature type it was read with, its geometry, style, state
   * and render intent.
   */
  datatype Feature = Feature(fid: Option<string>, featureType: string, geometry: Geometry,
                             style: Option<Style>, state: FeatureState, renderIntent: string)

  /**
   * One entry of `editableLayers`: its type, the feature type of its protocol,
   * its projection, and the visibility and features of its vector layer.
   */
  datatype EditLayer = EditLayer(kind: FeatureDrawing.LayerType, featureType: string,
                                 projection: Projection, visible: bool, features: seq<Feature>)

  /**
   * `currentObject.editorType`. `FeatureEditor2Constants` defines no DELETE,
   * so the delete entry stores undefined, which is also the value before any
   * entry was chosen and the value the `case` for deletion compares with:
   * `Delete` stands for all three.
   */
  datatype EditorType = Modify | Move | Delete

  /** The `ModifyFeature` mode of an edit control. */
  datatype ControlMode = Reshape | DragRotateResize

  /**
   * An `OpenLayers.Control.ModifyFeature`: its mode, the layer it works on
   * (None once destroyed), whether it is active, the index of the feature it
   * selects in that layer, and its virtual style.
   */
  datatype EditControl = EditControl(mode: ControlMode, layer: Option<nat>, active: bool,
                                     selected: Option<nat>, virtualStyle: Style)

  /** The state of `wmsGetFeatureControl`. */
  datatype Listener = NoListener | Listening | Deactivated | Destroyed

  /** `currentObject.feature`: none yet, a feature held by no layer, or the feature at `index` in layer `layer`. */
  datatype FeatureRef = NoFeature | Unstored(f: Feature) | Stored(layer: nat, index: nat)

  /** The editor type each menu entry sets. */
  function ModeAt(index: nat): (t: EditorType)
    requires index < 3
    ensures IndexOf(t) == index
  {
    if index == 0 then Modify else if index == 1 then Move else Delete
  }

  /** The menu entry of an editor type. */
  function IndexOf(t: EditorType): nat {
    match t
    case Modify => 0
    case Move => 1
    case Delete => 2
  }

  /** Every editor type is reached from exactly the menu entry `IndexOf` names. */
  lemma EveryModeHasAnEntry(t: EditorType)
    ensures IndexOf(t) < 3 && ModeAt(IndexOf(t)) == t
    ensures forall i :: 0 <= i < 3 && ModeAt(i) == t ==> i == IndexOf(t)
  {
  }

  /** The first layer whose protocol feature type is `t`. */
  function FirstLayerOfType(s: seq<EditLayer>, t: string): (r: Option<nat>)
    ensures r.Some? ==> r.value < |s| && s[r.value].featureType == t
    ensures r.Some? ==> forall j :: 0 <= j < r.value ==> s[j].featureType != t
    ensures r.None? ==> forall j :: 0 <= j < |s| ==> s[j].featureType != t
  {
    if s == [] then None
    else if s[0].featureType == t then Some(0)
    else
      match FirstLayerOfType(s[1..], t)
      case Some(k) =>
        assert forall j :: 1 <= j <= k ==> s[j] == s[1..][j - 1];
        Some(k + 1)
      case None =>
        assert forall j :: 1 <= j < |s| ==> s[j] == s[1..][j - 1];
        None
  }

  /** The first feature whose fid equals `fid` under JavaScript's `==`. */
  function FirstWithFid(fs: seq<Feature>, fid: Option<string>): (r: Option<nat>)
    ensures r.Some? ==> r.value < |fs| && fs[r.value].fid == fid
    ensures r.Some? ==> forall j :: 0 <= j < r.value ==> fs[j].fid != fid
    ensures r.None? ==> forall j :: 0 <= j < |fs| ==> fs[j].fid != fid
  {
    if fs == [] then None
    else if fs[0].fid == fid then Some(0)
    else
      match FirstWithFid(fs[1..], fid)
      case Some(k) =>
        assert forall j :: 1 <= j <= k ==> fs[j] == fs[1..][j - 1];
        Some(k + 1)
      case None =>
        assert forall j :: 1 <= j < |fs| ==> fs[j] == fs[1..][j - 1];
        None
  }

  /** The search for the target layer, with the loop and `break` of the feature-info handler. */
  method FindTargetLayer(s: seq<EditLayer>, t: string) returns (r: Option<nat>)
    ensures r == FirstLayerOfType(s, t)
  {
    r := None;
    var i := 0;
    while i < |s|
      invariant 0 <= i <= |s|
      invariant forall j :: 0 <= j < i ==> s[j].featureType != t
    {
      if s[i].featureType == t {
        r := Some(i);
        break;
      }
      i := i + 1;
    }
  }

  /** The search of the target layer's features for the raw feature's fid. */
  method FindStoredFeature(fs: seq<Feature>, fid: Option<string>) returns (r: Option<nat>)
    ensures r == FirstWithFid(fs, fid)
  {
    r := None;
    var i := 0;
    while i < |fs|
      invariant 0 <= i <= |fs|
      invariant forall j :: 0 <= j < i ==> fs[j].fid != fid
    {
      if fs[i].fid == fid {
        r := Some(i);
        break;
      }
      i := i + 1;
    }
  }

  /** Where the resolved feature sits in layer `l`: the first feature with the raw fid, or the end, where the raw feature is appended. */
  function ResolvedIndex(l: EditLayer, raw: Feature): (k: nat)
    ensures k <= |l.features|
    ensures k < |l.features| ==> l.features[k].fid == raw.fid
  {
    match FirstWithFid(l.features, raw.fid)
    case Some(k) => k
    case None => |l.features|
  }

  /** The raw feature with its geometry reprojected from the layer's projection to the map's. */
  function Reprojected(raw: Feature, from: Projection, to: Projection,
                       reproject: (Geometry, Projection, Projection) -> Geometry): Feature
  {
    raw.(geometry := reproject(raw.geometry, from, to))
  }

  /** A resolved feature as styled: the square marker on point layers only. */
  function Highlighted(f: Feature, kind: FeatureDrawing.LayerType): Feature {
    if kind == FeatureDrawing.Point then f.(style := Some(SquareMarker)) else f
  }

  /** Layer `l` after a raw feature has been resolved in it: found or appended, styled, and visible. */
  function Resolved(l: EditLayer, raw: Feature, mapProjection: Projection,
                    reproject: (Geometry, Projection, Projection) -> Geometry): (r: EditLayer)
    ensures ResolvedIndex(l, raw) < |r.features|
  {
    var fs := if FirstWithFid(l.features, raw.fid).Some? then l.features
              else l.features + [Reprojected(raw, l.projection, mapProjection, reproject)];
    var k := ResolvedIndex(l, raw);
    l.(features := fs[k := Highlighted(fs[k], l.kind)], visible := true)
  }

  /** A stored feature with the raw fid is reused: the list keeps its length and only that feature's style may change. */
  lemma ResolvedReusesStored(l: EditLayer, raw: Feature, mapProjection: Projection,
                             reproject: (Geometry, Projection, Projection) -> Geometry, k: nat)
    requires FirstWithFid(l.features, raw.fid) == Some(k)
    ensures var r := Resolved(l, raw, mapProjection, reproject);
            && ResolvedIndex(l, raw) == k
            && |r.features| == |l.features|
            && (forall j :: 0 <= j < |l.features| && j != k ==> r.features[j] == l.features[j])
            && r.features[k] == Highlighted(l.features[k], l.kind)
            && r.visible
  {
  }

  /** Without such a feature the reprojected raw feature is appended: the list grows by exactly one. */
  lemma ResolvedAppendsRaw(l: EditLayer, raw: Feature, mapProjection: Projection,
                           reproject: (Geometry, Projection, Projection) -> Geometry)
    requires FirstWithFid(l.features, raw.fid).None?
    ensures var r := Resolved(l, raw, mapProjection, reproject);
            && ResolvedIndex(l, raw) == |l.features|
            && |r.features| == |l.features| + 1
            && r.features[..|l.features|] == l.features
            && r.features[|l.features|] ==
                 Highlighted(Reprojected(raw, l.projection, mapProjection, reproject), l.kind)
            && r.visible
  {
  }

  /** Either way the resolved feature carries the raw feature's fid. */
  lemma ResolvedFeatureHasRawFid(l: EditLayer, raw: Feature, mapProjection: Projection,
                                 reproject: (Geometry, Projection, Projection) -> Geometry)
    ensures Resolved(l, raw, mapProjection, reproject).features[ResolvedIndex(l, raw)].fid == raw.fid
  {
  }

  /**
   * Resolving the same raw feature again changes nothing: the first resolution
   * left a feature with its fid at the same place, so no duplicate is added.
   */
  lemma ResolutionIdempotent(l: EditLayer, raw: Feature, mapProjection: Projection,
                             reproject: (Geometry, Projection, Projection) -> Geometry)
    ensures var r := Resolved(l, raw, mapProjection, reproject);
            ResolvedIndex(r, raw) == ResolvedIndex(l, raw) &&
            Resolved(r, raw, mapProjection, reproject) == r
  {
    var r := Resolved(l, raw, mapProjection, reproject);
    var k := ResolvedIndex(l, raw);
    assert forall j :: 0 <= j < |l.features| ==> r.features[j].fid == l.features[j].fid;
    assert r.features[k].fid == raw.fid;
    var k2 := FirstWithFid(r.features, raw.fid);
    assert k2 == Some(k);
  }

  /**
   * The features of a layer once deletion of the feature at `k` is confirmed:
   * a feature without fid (never saved) is removed, one with a fid is marked
   * for deletion and rendered with the "select" intent.
   */
  function AfterDeleteConfirmed(fs: seq<Feature>, k: nat): seq<Feature>
    requires k < |fs|
  {
    if fs[k].fid.None? then fs[..k] + fs[k + 1..]
    else fs[k := fs[k].(state := StateDelete, renderIntent := "select")]
  }

  /** An unsaved feature is removed and every other feature keeps its order. */
  lemma UnsavedFeatureRemoved(fs: seq<Feature>, k: nat)
    requires k < |fs| && fs[k].fid.None?
    ensures var r := AfterDeleteConfirmed(fs, k);
            && |r| == |fs| - 1
            && (forall j :: 0 <= j < k ==> r[j] == fs[j])
            && (forall j :: k <= j < |r| ==> r[j] == fs[j + 1])
  {
  }

  /** A saved feature stays in place, marked for deletion with the "select" intent; nothing else changes. */
  lemma SavedFeatureMarked(fs: seq<Feature>, k: nat)
    requires k < |fs| && fs[k].fid.Some?
    ensures var r := AfterDeleteConfirmed(fs, k);
            && |r| == |fs|
            && (forall j :: 0 <= j < |fs| && j != k ==> r[j] == fs[j])
            && r[k] == fs[k].(state := StateDelete, renderIntent := "select")
  {
  }

  /** `activeIndex` once the menu has been unchecked: the last checked entry, or unchanged when none was checked. */
  function IndexAfterRelease(checks: seq<bool>, active: nat): nat {
    match Menu.LastChecked(checks)
    case Some(j) => j
    case None => active
  }

  /** Whether a control is still attached to a layer (`control.layer` is set). */
  predicate Attached(c: Option<EditControl>) {
    c.Some? && c.value.layer.Some?
  }

  /** A control after `destroy`: detached from its layer and inactive. */
  function DestroyedControl(c: Option<EditControl>): Option<EditControl> {
    match c
    case Some(x) => Some(x.(layer := None, active := false))
    case None => None
  }

  /** A control after `commitAll`: an attached control unselects the current feature. */
  function Unselected(c: Option<EditControl>): Option<EditControl> {
    if Attached(c) then Some(c.value.(selected := None)) else c
  }

  /** The feature-info listener after `destroy`, when there is one. */
  function DestroyedListener(l: Listener): Listener {
    if l == NoListener then NoListener else Destroyed
  }

  /** The editing tool's state: `editableLayers`, `currentObject`, `editControls`, the listener and the button. */
  class EditTool {
    const layers: array<EditLayer>
    const mapProjection: Projection
    var editorType: EditorType
    var activeIndex: nat
    var pressed: bool
    var menuChecked: seq<bool>
    var current: FeatureRef
    var currentLayer: Option<nat>
    var modifyControl: Option<EditControl>
    var moveControl: Option<EditControl>
    var listener: Listener
    /** The delete confirmation dialog is open. */
    var confirmPending: bool

    /** A control that is attached works on a configured layer and selects one of its features. */
    ghost predicate ControlOk(c: Option<EditControl>)
      reads this, layers
    {
      Attached(c) ==>
        && c.value.layer.value < layers.Length
        && (c.value.selected.Some? ==> c.value.selected.value < |layers[c.value.layer.value].features|)
    }

    /**
     * The tool's invariant. Besides well-formed references it says that at most
     * one edit control is attached at a time, and that while one is attached (or
     * a deletion awaits confirmation) no feature-info listener is active.
     */
    ghost predicate Valid()
      reads this, layers
    {
      && |menuChecked| == 3 && activeIndex < 3
      && (currentLayer.Some? ==> currentLayer.value < layers.Length)
      && (current.Stored? ==> current.layer < layers.Length && current.index < |layers[current.layer].features|)
      && ControlOk(modifyControl) && ControlOk(moveControl)
      && (Attached(modifyControl) ==> modifyControl.value.mode == Reshape)
      && (Attached(moveControl) ==> moveControl.value.mode == DragRotateResize)
      && !(Attached(modifyControl) && Attached(moveControl))
      && (Attached(modifyControl) || Attached(moveControl) ==> listener != Listening && !confirmPending)
      && (confirmPending ==> current.Stored? && listener != Listening)
    }

    /** The tool as the constructor and `getAction` leave it: first entry active, nothing checked, pressed or installed. */
    constructor (initial: seq<EditLayer>, mapProjection: Projection)
      ensures Valid() && fresh(layers)
      ensures layers[..] == initial && this.mapProjection == mapProjection
      ensures activeIndex == 0 && !pressed && menuChecked == [false, false, false]
      ensures editorType == Delete && current == NoFeature && currentLayer == None
      ensures modifyControl == None && moveControl == None && listener == NoListener && !confirmPending
    {
      layers := new EditLayer[|initial|](j requires 0 <= j < |initial| => initial[j]);
      this.mapProjection := mapProjection;
      editorType := Delete;
      activeIndex := 0;
      pressed := false;
      menuChecked := [false, false, false];
      current := NoFeature;
      currentLayer := None;
      modifyControl := None;
      moveControl := None;
      listener := NoListener;
      confirmPending := false;
    }

    /** `destroyExistingControls`: destroys the Modify control, the Move control and the listener, those that exist. */
    method DestroyExistingControls()
      requires Valid()
      modifies this`modifyControl, this`moveControl, this`listener
      ensures Valid()
      ensures modifyControl == DestroyedControl(old(modifyControl))
      ensures moveControl == DestroyedControl(old(moveControl))
      ensures listener == DestroyedListener(old(listener))
      ensures !Attached(modifyControl) && !Attached(moveControl) && listener != Listening
    {
      if modifyControl.Some? {
        modifyControl := DestroyedControl(modifyControl);
      }
      if moveControl.Some? {
        moveControl := DestroyedControl(moveControl);
      }
      if listener != NoListener {
        listener := Destroyed;
      }
    }

    /** `init`: destroys the existing controls, then makes every editable layer visible. */
    method Init()
      requires Valid()
      modifies this`modifyControl, this`moveControl, this`listener, layers
      ensures Valid()
      ensures modifyControl == DestroyedControl(old(modifyControl))
      ensures moveControl == DestroyedControl(old(moveControl))
      ensures listener == DestroyedListener(old(listener))
      ensures forall j :: 0 <= j < layers.Length ==> layers[j] == old(layers[j]).(visible := true)
    {
      DestroyExistingControls();
      var i := 0;
      while i < layers.Length
        invariant 0 <= i <= layers.Length
        invariant forall j :: 0 <= j < layers.Length ==>
                    layers[j] == if j < i then old(layers[j]).(visible := true) else old(layers[j])
        modifies layers
      {
        layers[i] := layers[i].(visible := true);
        i := i + 1;
      }
    }

    /** `commitAll`: hides every editable layer; an attached Modify or Move control unselects the current feature. */
    method CommitAll()
      requires Valid()
      modifies this`modifyControl, this`moveControl, layers
      ensures Valid()
      ensures forall j :: 0 <= j < layers.Length ==> layers[j] == old(layers[j]).(visible := false)
      ensures modifyControl == Unselected(old(modifyControl))
      ensures moveControl == Unselected(old(moveControl))
    {
      var i := 0;
      while i < layers.Length
        invariant 0 <= i <= layers.Length
        invariant forall j :: 0 <= j < layers.Length ==>
                    layers[j] == if j < i then old(layers[j]).(visible := false) else old(layers[j])
        modifies layers
      {
        layers[i] := layers[i].(visible := false);
        i := i + 1;
      }
      if Attached(modifyControl) {
        modifyControl := Some(modifyControl.value.(selected := None));
      }
      if Attached(moveControl) {
        moveControl := Some(moveControl.value.(selected := None));
      }
    }

    /**
     * The toggle listener on release: unchecks every menu entry (the handler
     * of each checked one sets `activeIndex` to it), then `commitAll` and
     * `destroyExistingControls`.
     */
    method ReleaseButton()
      requires Valid() && !confirmPending
      modifies this`activeIndex, this`menuChecked, this`modifyControl, this`moveControl, this`listener, layers
      ensures Valid()
      ensures menuChecked == [false, false, false]
      ensures activeIndex == IndexAfterRelease(old(menuChecked), old(activeIndex))
      ensures forall j :: 0 <= j < layers.Length ==> layers[j] == old(layers[j]).(visible := false)
      ensures modifyControl == DestroyedControl(Unselected(old(modifyControl)))
      ensures moveControl == DestroyedControl(Unselected(old(moveControl)))
      ensures listener == DestroyedListener(old(listener))
    {
      ghost var checks := menuChecked;
      var i := 0;
      while i < 3
        invariant 0 <= i <= 3 && |menuChecked| == 3 && activeIndex < 3
        invariant forall j :: 0 <= j < 3 ==> menuChecked[j] == (j >= i && checks[j])
        invariant activeIndex == IndexAfterRelease(checks[..i], old(activeIndex))
        modifies this`menuChecked, this`activeIndex
      {
        Menu.LastCheckedStep(checks, i);
        if menuChecked[i] {
          menuChecked := menuChecked[i := false];
          activeIndex := i;
        }
        i := i + 1;
      }
      assert checks[..3] == checks;
      CommitAll();
      DestroyExistingControls();
    }

    /** `button.toggle(state)`: releasing a pressed button runs the toggle listener. */
    method ToggleButton(state: bool)
      requires Valid() && !confirmPending
      modifies this`pressed, this`activeIndex, this`menuChecked, this`modifyControl, this`moveControl,
               this`listener, layers
      ensures Valid() && pressed == state
      ensures old(pressed) && !state ==>
                && menuChecked == [false, false, false]
                && activeIndex == IndexAfterRelease(old(menuChecked), old(activeIndex))
                && (forall j :: 0 <= j < layers.Length ==> layers[j] == old(layers[j]).(visible := false))
                && !Attached(modifyControl) && !Attached(moveControl) && listener != Listening
      ensures !(old(pressed) && !state) ==>
                && activeIndex == old(activeIndex) && menuChecked == old(menuChecked)
                && layers[..] == old(layers[..]) && listener == old(listener)
                && modifyControl == old(modifyControl) && moveControl == old(moveControl)
    {
      if state != pressed {
        pressed := state;
        if !state {
          ReleaseButton();
        }
      }
    }

    /** `createWmsGetFeatureControl`: destroys the previous listener, if any, and installs an active one. */
    method CreateListener()
      requires Valid() && !Attached(modifyControl) && !Attached(moveControl) && !confirmPending
      modifies this`listener
      ensures Valid() && listener == Listening
    {
      if listener != NoListener {
        listener := Destroyed;
      }
      listener := Listening;
    }

    /**
     * What a checked menu entry does after toggling the button: `init` (which
     * tears the controls down and shows every layer), `destroyExistingControls`
     * again, the editor type of the entry, and a fresh listener.
     */
    method EnterMode(index: nat)
      requires Valid() && index < 3 && !confirmPending
      modifies this`editorType, this`modifyControl, this`moveControl, this`listener, layers
      ensures Valid() && editorType == ModeAt(index) && listener == Listening
      ensures modifyControl == DestroyedControl(old(modifyControl))
      ensures moveControl == DestroyedControl(old(moveControl))
      ensures forall j :: 0 <= j < layers.Length ==> layers[j] == old(layers[j]).(visible := true)
    {
      Init();
      DestroyExistingControls();
      editorType := ModeAt(index);
      CreateListener();
    }

    /**
     * The `checkchange` handler of menu entry `index` (0: Modify, 1: Move,
     * 2: Delete). The button follows the entry; a checked entry then tears
     * down every control before it sets the editor type and installs a new
     * listener. The confirmation dialog is modal, so this never runs while
     * it is open.
     */
    method OnModeItemCheck(index: nat, checked: bool)
      requires Valid() && index < 3 && !confirmPending
      modifies this`activeIndex, this`menuChecked, this`pressed, this`editorType, this`modifyControl,
               this`moveControl, this`listener, layers
      ensures Valid() && pressed == checked
      ensures checked ==>
                && activeIndex == index && editorType == ModeAt(index)
                && menuChecked == old(menuChecked)[index := true]
                && modifyControl == DestroyedControl(old(modifyControl))
                && moveControl == DestroyedControl(old(moveControl))
                && listener == Listening
                && (forall j :: 0 <= j < layers.Length ==> layers[j] == old(layers[j]).(visible := true))
      ensures !checked && old(pressed) ==>
                && menuChecked == [false, false, false]
                && activeIndex == IndexAfterRelease(old(menuChecked)[index := false], index)
                && editorType == old(editorType)
                && (forall j :: 0 <= j < layers.Length ==> layers[j] == old(layers[j]).(visible := false))
                && !Attached(modifyControl) && !Attached(moveControl) && listener != Listening
      ensures !checked && !old(pressed) ==>
                && activeIndex == index && menuChecked == old(menuChecked)[index := false]
                && editorType == old(editorType) && layers[..] == old(layers[..])
                && modifyControl == old(modifyControl) && moveControl == old(moveControl)
                && listener == old(listener)
    {
      activeIndex := index;
      menuChecked := menuChecked[index := checked];
      if checked {
        pressed := true;
        EnterMode(index);
      } else if pressed {
        pressed := false;
        ReleaseButton();
      }
    }

    /**
     * A click on the button: Ext toggles it (releasing it runs the toggle
     * listener), then the handler checks the menu entry of `activeIndex` on a
     * press, which enters that entry's mode unless it was checked already.
     */
    method OnButtonClick()
      requires Valid() && !confirmPending
      modifies this`activeIndex, this`menuChecked, this`pressed, this`editorType, this`modifyControl,
               this`moveControl, this`listener, layers
      ensures Valid() && pressed == !old(pressed)
      ensures old(pressed) ==>
                && menuChecked == [false, false, false]
                && activeIndex == IndexAfterRelease(old(menuChecked), old(activeIndex))
                && (forall j :: 0 <= j < layers.Length ==> layers[j] == old(layers[j]).(visible := false))
                && !Attached(modifyControl) && !Attached(moveControl) && listener != Listening
      ensures !old(pressed) ==> activeIndex == old(activeIndex) && menuChecked[activeIndex]
      ensures !old(pressed) && !old(menuChecked)[old(activeIndex)] ==>
                && editorType == ModeAt(old(activeIndex)) && listener == Listening
                && (forall j :: 0 <= j < layers.Length ==> layers[j] == old(layers[j]).(visible := true))
                && menuChecked == old(menuChecked)[old(activeIndex) := true]
                && modifyControl == DestroyedControl(old(modifyControl))
                && moveControl == DestroyedControl(old(moveControl))
      ensures !old(pressed) && old(menuChecked)[old(activeIndex)] ==>
                && editorType == old(editorType) && listener == old(listener)
                && menuChecked == old(menuChecked) && layers[..] == old(layers[..])
    {
      if pressed {
        pressed := false;
        ReleaseButton();
      } else {
        pressed := true;
        if !menuChecked[activeIndex] {
          OnModeItemCheck(activeIndex, true);
        }
      }
    }

    /** Resolves `raw` in layer `t`, as the feature-info listener does, and says where it now sits. */
    method ResolveIn(t: nat, raw: Feature, reproject: (Geometry, Projection, Projection) -> Geometry)
      returns (k: nat)
      requires t < layers.Length
      modifies layers
      ensures layers[..] == old(layers[..])[t := Resolved(old(layers[t]), raw, mapProjection, reproject)]
      ensures k == ResolvedIndex(old(layers[t]), raw) && k < |layers[t].features|
    {
      ghost var before := layers[t];
      var found := FindStoredFeature(layers[t].features, raw.fid);
      if found.None? {
        var placed := Reprojected(raw, layers[t].projection, mapProjection, reproject);
        k := |layers[t].features|;
        layers[t] := layers[t].(features := layers[t].features + [placed], visible := true);
      } else {
        k := found.value;
      }
      var fs := layers[t].features;
      layers[t] := layers[t].(features := fs[k := Highlighted(fs[k], layers[t].kind)], visible := true);
      assert layers[t] == Resolved(before, raw, mapProjection, reproject);
    }

    /**
     * The `getfeatureinfo` listener, given the features the click returned and
     * the reprojection the map applies. An empty result changes nothing. The
     * first feature goes to `current`; if no layer has its feature type nothing
     * else changes. Otherwise it is resolved in the first such layer, which is
     * shown, an edit control of the editor type selects it (or deletion waits
     * for confirmation), and the listener is deactivated.
     */
    method OnGetFeatureInfo(features: seq<Feature>, reproject: (Geometry, Projection, Projection) -> Geometry)
      requires Valid() && listener == Listening
      modifies this`current, this`currentLayer, this`modifyControl, this`moveControl, this`listener,
               this`confirmPending, layers
      ensures Valid()
      ensures features == [] ==> unchanged(this) && unchanged(layers)
      ensures features != [] && FirstLayerOfType(old(layers[..]), features[0].featureType).None? ==>
                && layers[..] == old(layers[..])
                && current == Unstored(features[0]) && currentLayer == None
                && listener == Listening && !confirmPending
                && modifyControl == old(modifyControl) && moveControl == old(moveControl)
      ensures features != [] && FirstLayerOfType(old(layers[..]), features[0].featureType).Some? ==>
                var raw := features[0];
                var t := FirstLayerOfType(old(layers[..]), raw.featureType).value;
                var k := ResolvedIndex(old(layers[t]), raw);
                && layers[..] == old(layers[..])[t := Resolved(old(layers[t]), raw, mapProjection, reproject)]
                && current == Stored(t, k) && currentLayer == Some(t)
                && listener == Deactivated
                && modifyControl == (if editorType == Modify then Some(EditControl(Reshape, Some(t), true, Some(k), SquareMarker))
                                     else old(modifyControl))
                && moveControl == (if editorType == Move then Some(EditControl(DragRotateResize, Some(t), true, Some(k), SquareMarker))
                                   else old(moveControl))
                && confirmPending == (editorType == Delete)
    {
      if |features| > 0 {
        var raw := features[0];
        var target := FindTargetLayer(layers[..], raw.featureType);
        if target.None? {
          current := Unstored(raw);
          currentLayer := None;
        } else {
          var t := target.value;
          var k := ResolveIn(t, raw, reproject);
          current := Stored(t, k);
          currentLayer := target;
          match editorType {
            case Modify =>
              modifyControl := Some(EditControl(Reshape, Some(t), true, Some(k), SquareMarker));
            case Move =>
              moveControl := Some(EditControl(DragRotateResize, Some(t), true, Some(k), SquareMarker));
            case Delete =>
              confirmPending := true;
          }
          listener := Deactivated;
        }
      }
    }

    /**
     * The confirmation dialog's callback. On "yes" the current feature is
     * removed from its layer when it has no fid, and otherwise marked for
     * deletion with the "select" intent; either way a pressed button is then
     * released.
     */
    method OnDeleteAnswer(yes: bool)
      requires Valid() && confirmPending
      modifies this, layers
      ensures Valid() && !confirmPending && !pressed
      ensures editorType == old(editorType) && currentLayer == old(currentLayer)
      ensures var l, k := old(current).layer, old(current).index;
              forall j :: 0 <= j < layers.Length ==>
                layers[j] == old(layers[j]).(
                  features := if yes && j == l then AfterDeleteConfirmed(old(layers[j].features), k)
                              else old(layers[j].features),
                  visible := if old(pressed) then false else old(layers[j].visible))
      ensures var l, k := old(current).layer, old(current).index;
              current == if yes && old(layers[l].features[k]).fid.None? then Unstored(old(layers[l].features[k]))
                         else old(current)
      ensures old(pressed) ==> menuChecked == [false, false, false] && listener == DestroyedListener(old(listener))
      ensures old(pressed) ==> activeIndex == IndexAfterRelease(old(menuChecked), old(activeIndex))
      ensures !old(pressed) ==> menuChecked == old(menuChecked) && listener == old(listener) && activeIndex == old(activeIndex)
      ensures modifyControl == (if old(pressed) then DestroyedControl(old(modifyControl)) else old(modifyControl))
      ensures moveControl == (if old(pressed) then DestroyedControl(old(moveControl)) else old(moveControl))
    {
      confirmPending := false;
      var l, k := current.layer, current.index;
      if yes {
        var f := layers[l].features[k];
        if f.fid.None? {
          layers[l] := layers[l].(features := AfterDeleteConfirmed(layers[l].features, k));
          current := Unstored(f);
        } else {
          layers[l] := layers[l].(features := AfterDeleteConfirmed(layers[l].features, k));
        }
      }
      if pressed {
        pressed := false;
        ReleaseButton();
      }
    }
  }
}
