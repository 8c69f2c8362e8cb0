/**
 * The drawing tool (`gxp.plugins.FeatureDrawing`): a split button whose menu
 * holds one check item per configured layer of a supported type. Each such
 * layer owns a draw control; checking its item makes it the current layer and
 * switches every other layer's control off.
 */
module FeatureDrawing {
  import opened Wrappers
  import Menu

  /** The layer types of `FeatureDrawingConstants`; any other configured type string is kept as `Unsupported`. */
  datatype LayerType = Line | Poly | Point | Unsupported(name: string)

  predicate IsSupported(t: LayerType) {
    !t.Unsupported?
  }

  /** The OpenLayers handler a draw control is built with. */
  datatype Handler = PolygonHandler | PathHandler | PointHandler

  /** An `OpenLayers.Control.DrawFeature`: its handler and whether it is active. */
  datatype DrawControl = DrawControl(handler: Handler, active: bool)

  /** One entry of the `editableLayers` configuration. */
  datatype LayerConfig = LayerConfig(kind: LayerType, menuText: Option<string>)

  /**
   * One entry of `editableLayers` once the tool exists: its position `num`, its
   * draw `control` (absent for an unsupported type), the check state of its menu
   * item, and how often its vector layer and its WMS counterpart were redrawn.
   */
  datatype DrawLayer = DrawLayer(kind: LayerType, menuText: Option<string>, num: nat,
                                 control: Option<DrawControl>, itemChecked: bool,
                                 redraws: nat, wmsRedraws: nat)

  /** The layer type a handler draws. */
  function KindOf(h: Handler): LayerType {
    match h
    case PolygonHandler => Poly
    case PathHandler => Line
    case PointHandler => Point
  }

  /** The handler of the draw control a layer of type `kind` gets, if any. */
  function HandlerFor(kind: LayerType): (h: Option<Handler>)
    ensures h.Some? <==> IsSupported(kind)
    ensures h.Some? ==> KindOf(h.value) == kind
  {
    match kind
    case Poly => Some(PolygonHandler)
    case Line => Some(PathHandler)
    case Point => Some(PointHandler)
    case Unsupported(_) => None
  }

  /** A configuration entry before the constructor has numbered it and given it a control. */
  function Unconfigured(cfg: LayerConfig): DrawLayer {
    DrawLayer(cfg.kind, cfg.menuText, 0, None, false, 0, 0)
  }

  /** What the constructor's loop makes of the configuration entry at position `i`. */
  function Configured(cfg: LayerConfig, i: nat): (l: DrawLayer)
    ensures l.num == i && l.kind == cfg.kind && !l.itemChecked
    ensures l.control.Some? <==> IsSupported(cfg.kind)
    ensures l.control.Some? ==> !l.control.value.active && KindOf(l.control.value.handler) == cfg.kind
  {
    var ctl := match HandlerFor(cfg.kind)
               case Some(h) => Some(DrawControl(h, false))
               case None => None;
    Unconfigured(cfg).(num := i, control := ctl)
  }

  /** The well-formedness of the `i`-th layer that every operation of the tool keeps. */
  ghost predicate LayerOk(l: DrawLayer, i: nat) {
    && l.num == i
    && (l.control.Some? <==> IsSupported(l.kind))
    && (l.control.Some? ==> KindOf(l.control.value.handler) == l.kind)
    && (!IsSupported(l.kind) ==> !l.itemChecked)
  }

  /** Whether a layer's draw control exists and is active. */
  predicate ControlActive(l: DrawLayer) {
    l.control.Some? && l.control.value.active
  }

  /** A layer whose control has been deactivated. */
  function Deactivated(l: DrawLayer): DrawLayer {
    match l.control
    case Some(c) => l.(control := Some(c.(active := false)))
    case None => l
  }

  /**
   * Where `deactivateAllButCurrent` stops: the first layer that is not the
   * current one and has no control (calling `deactivate` on its undefined
   * control throws), or `|s|` when there is none.
   */
  function FailurePoint(s: seq<DrawLayer>, cur: nat): (k: nat)
    ensures k <= |s|
    ensures forall j :: 0 <= j < k ==> s[j].num == cur || s[j].control.Some?
    ensures k < |s| ==> s[k].num != cur && s[k].control.None?
  {
    if s == [] then 0
    else if s[0].num != cur && s[0].control.None? then 0
    else
      var k := FailurePoint(s[1..], cur);
      assert forall j :: 1 <= j < k + 1 ==> s[j] == s[1..][j - 1];
      k + 1
  }

  /** The layers after `deactivateAllButCurrent`: every layer before the failure point that is not current is deactivated. */
  function AfterDeactivation(s: seq<DrawLayer>, cur: nat): (r: seq<DrawLayer>) {
    seq(|s|, j requires 0 <= j < |s| =>
      if j < FailurePoint(s, cur) && s[j].num != cur then Deactivated(s[j]) else s[j])
  }

  /** Checking (or unchecking) a layer's menu item; the item's action activates (or deactivates) the layer's control with it. */
  function SetItem(l: DrawLayer, checked: bool): DrawLayer {
    var ctl := match l.control
               case Some(c) => Some(c.(active := checked))
               case None => None;
    l.(itemChecked := checked, control := ctl)
  }

  /** The check states of the menu items, layer by layer. */
  function ItemChecks(s: seq<DrawLayer>): (c: seq<bool>)
    ensures |c| == |s| && forall j :: 0 <= j < |s| ==> c[j] == s[j].itemChecked
  {
    seq(|s|, j requires 0 <= j < |s| => s[j].itemChecked)
  }

  /** The layers once the button's toggle listener has unchecked every menu item. */
  function Released(s: seq<DrawLayer>): seq<DrawLayer> {
    seq(|s|, j requires 0 <= j < |s| => if s[j].itemChecked then SetItem(s[j], false) else s[j])
  }

  /** The default menu text for a layer type. */
  function DefaultMenuText(kind: LayerType): string {
    match kind
    case Poly => "Polygon"
    case Line => "Line"
    case Point => "Point"
    case Unsupported(_) => ""
  }

  /**
   * The text of a layer's menu item, which the button takes when the item is
   * checked: the configured text unless it is missing or empty (both falsy).
   */
  function ItemText(l: DrawLayer): (t: string)
    ensures l.menuText.Some? && l.menuText.value != "" ==> t == l.menuText.value
    ensures l.menuText.None? || l.menuText.value == "" ==> t == DefaultMenuText(l.kind)
  {
    match l.menuText
    case Some(m) => if m != "" then m else DefaultMenuText(l.kind)
    case None => DefaultMenuText(l.kind)
  }

  /** The layers that get a menu item, in menu order: those of a supported type. */
  function MenuLayers(s: seq<DrawLayer>): (m: seq<nat>)
    ensures forall p :: 0 <= p < |m| ==> m[p] < |s| && IsSupported(s[m[p]].kind)
    ensures forall p, q :: 0 <= p < q < |m| ==> m[p] < m[q]
    ensures forall j :: 0 <= j < |s| && IsSupported(s[j].kind) ==> j in m
  {
    if s == [] then []
    else
      var n := |s| - 1;
      var m := MenuLayers(s[..n]);
      assert forall j :: 0 <= j < n ==> s[..n][j] == s[j];
      m + (if IsSupported(s[n].kind) then [n] else [])
  }

  /**
   * The layer whose menu item the pressed button re-checks, as written: the
   * item at menu POSITION `pos` (None: `itemAt` returns undefined and the
   * handler throws).
   */
  function ItemAtPosition(s: seq<DrawLayer>, pos: nat): (r: Option<nat>)
    ensures r.Some? ==> r.value < |s| && IsSupported(s[r.value].kind)
  {
    var m := MenuLayers(s);
    if pos < |m| then Some(m[pos]) else None
  }

  /** The layer whose menu item the pressed button should re-check: the item bound to layer number `num`, if it has one. */
  function ItemForLayer(s: seq<DrawLayer>, num: nat): (r: Option<nat>)
    ensures r.Some? ==> r.value == num && r.value in MenuLayers(s)
    ensures r.None? ==> num !in MenuLayers(s)
  {
    if num < |s| && IsSupported(s[num].kind) then Some(num) else None
  }

  /** Configured layers are numbered by their position (`num = i`) and get a control exactly when their type is supported. */
  lemma ConfiguredLayersAreWellFormed(configs: seq<LayerConfig>, i: nat)
    requires i < |configs|
    ensures LayerOk(Configured(configs[i], i), i)
    ensures Configured(configs[i], i).control.Some? ==>
              Configured(configs[i], i).control.value.handler == HandlerFor(configs[i].kind).value
  {
  }

  /** `deactivateAllButCurrent` never touches a layer numbered `cur`. */
  lemma CurrentLayerUntouched(s: seq<DrawLayer>, cur: nat, j: nat)
    requires j < |s| && s[j].num == cur
    ensures |AfterDeactivation(s, cur)| == |s| && AfterDeactivation(s, cur)[j] == s[j]
  {
  }

  /** When it does not throw, `deactivateAllButCurrent` leaves every other layer's control inactive. */
  lemma OthersInactive(s: seq<DrawLayer>, cur: nat, j: nat)
    requires FailurePoint(s, cur) == |s|
    requires j < |s| && s[j].num != cur
    ensures AfterDeactivation(s, cur)[j].control.Some?
    ensures !AfterDeactivation(s, cur)[j].control.value.active
  {
  }

  /** It throws exactly when some other layer has an unsupported type, once layers are well formed. */
  lemma FailsOnlyOnUnsupported(s: seq<DrawLayer>, cur: nat)
    requires forall j :: 0 <= j < |s| ==> LayerOk(s[j], j)
    ensures FailurePoint(s, cur) == |s| <==>
              forall j :: 0 <= j < |s| && j != cur ==> IsSupported(s[j].kind)
  {
    var k := FailurePoint(s, cur);
    if k < |s| {
      assert s[k].num == k;
    }
  }

  /** Where the sweep fails depends only on the layers' numbers and on which of them have a control. */
  lemma {:induction false} FailurePointDependsOnShape(s: seq<DrawLayer>, r: seq<DrawLayer>, cur: nat)
    requires |r| == |s|
    requires forall j :: 0 <= j < |s| ==> r[j].num == s[j].num && (r[j].control.None? <==> s[j].control.None?)
    ensures FailurePoint(r, cur) == FailurePoint(s, cur)
  {
    if s != [] {
      FailurePointDependsOnShape(s[1..], r[1..], cur);
    }
  }

  /** Deactivating twice is deactivating once: the second sweep fails at the same place and changes nothing. */
  lemma DeactivationIdempotent(s: seq<DrawLayer>, cur: nat)
    ensures AfterDeactivation(AfterDeactivation(s, cur), cur) == AfterDeactivation(s, cur)
  {
    FailurePointDependsOnShape(s, AfterDeactivation(s, cur), cur);
  }

  /** With every layer supported, menu position and layer number agree, so the as-written lookup is right. */
  lemma {:induction false} AllSupportedMenuIsIdentity(s: seq<DrawLayer>)
    requires forall j :: 0 <= j < |s| ==> IsSupported(s[j].kind)
    ensures |MenuLayers(s)| == |s|
    ensures forall p :: 0 <= p < |s| ==> MenuLayers(s)[p] == p
  {
    if s != [] {
      var n := |s| - 1;
      assert forall j :: 0 <= j < n ==> s[..n][j] == s[j];
      AllSupportedMenuIsIdentity(s[..n]);
    }
  }

  /** Without unsupported layers both lookups pick the same menu item. */
  lemma PositionLookupRightWhenAllSupported(s: seq<DrawLayer>, num: nat)
    requires forall j :: 0 <= j < |s| ==> IsSupported(s[j].kind)
    ensures ItemAtPosition(s, num) == ItemForLayer(s, num)
  {
    AllSupportedMenuIsIdentity(s);
  }

  /**
   * An unsupported layer ahead of the current one shifts the menu: with
   * layers [unsupported, Point, Line] and the Point layer current, pressing
   * the button re-checks the Line item.
   */
  lemma PositionLookupPicksWrongLayer()
    ensures var s := [Configured(LayerConfig(Unsupported("Circle"), None), 0),
                      Configured(LayerConfig(Point, None), 1),
                      Configured(LayerConfig(Line, None), 2)];
            ItemAtPosition(s, 1) == Some(2) && ItemForLayer(s, 1) == Some(1)
  {
    var s := [Configured(LayerConfig(Unsupported("Circle"), None), 0),
              Configured(LayerConfig(Point, None), 1),
              Configured(LayerConfig(Line, None), 2)];
    assert s[..0] == [];
    assert s[..1][..0] == [];
    assert MenuLayers(s[..1]) == [] by { assert s[..1] == [s[0]]; }
    assert s[..2][..1] == s[..1];
    assert MenuLayers(s[..2]) == [1];
    assert MenuLayers(s) == [1, 2];
  }

  /**
   * The layers once layer `i`'s menu item has been checked: Ext checks the
   * item, the tool's handler sweeps the other controls off, and only when that
   * sweep does not throw does the item's action activate the layer's control.
   */
  function AfterCheck(s: seq<DrawLayer>, i: nat): seq<DrawLayer>
    requires i < |s|
  {
    var s1 := s[i := s[i].(itemChecked := true)];
    var swept := AfterDeactivation(s1, i);
    if FailurePoint(s1, i) == |s1| then swept[i := SetItem(s1[i], true)] else swept
  }

  /** A check that completes leaves exactly the checked layer's control active. */
  lemma AfterCheckActivatesOnlyCurrent(s: seq<DrawLayer>, i: nat)
    requires i < |s| && IsSupported(s[i].kind)
    requires forall j :: 0 <= j < |s| ==> LayerOk(s[j], j)
    requires forall j :: 0 <= j < |s| && j != i ==> IsSupported(s[j].kind)
    ensures var r := AfterCheck(s, i);
            && |r| == |s|
            && r[i].itemChecked && r[i].control.Some? && r[i].control.value.active
            && forall j :: 0 <= j < |s| && j != i ==> r[j].control.Some? && !r[j].control.value.active
  {
    var s1 := s[i := s[i].(itemChecked := true)];
    assert forall j :: 0 <= j < |s1| ==> LayerOk(s1[j], j);
    FailsOnlyOnUnsupported(s1, i);
    forall j | 0 <= j < |s| && j != i
      ensures AfterDeactivation(s1, i)[j].control.Some? && !AfterDeactivation(s1, i)[j].control.value.active
    {
      OthersInactive(s1, i, j);
    }
  }

  /** A check that throws leaves the checked layer's control as it was: only its item is checked. */
  lemma AfterCheckThrowKeepsControl(s: seq<DrawLayer>, i: nat)
    requires i < |s| && IsSupported(s[i].kind)
    requires forall j :: 0 <= j < |s| ==> LayerOk(s[j], j)
    requires exists j :: 0 <= j < |s| && j != i && !IsSupported(s[j].kind)
    ensures |AfterCheck(s, i)| == |s| && AfterCheck(s, i)[i] == s[i].(itemChecked := true)
  {
    var s1 := s[i := s[i].(itemChecked := true)];
    assert forall j :: 0 <= j < |s1| ==> LayerOk(s1[j], j);
    FailsOnlyOnUnsupported(s1, i);
    var u :| 0 <= u < |s| && u != i && !IsSupported(s[u].kind);
    assert !IsSupported(s1[u].kind);
    CurrentLayerUntouched(s1, i, i);
  }

  /** The drawing tool's state. */
  class DrawTool {
    const layers: array<DrawLayer>
    const buttonText: string
    /** `currentDrawNum`: the `num` of the layer last selected through the menu. */
    var currentDrawNum: nat
    /** `currentEditableLayer`, as an index into `layers`. */
    var currentEditableLayer: Option<nat>
    /** `currentLabel`; None is the null a cancelled prompt returns. */
    var currentLabel: Option<string>
    /** Whether the split button is pressed, and the text it shows. */
    var pressed: bool
    var text: string

    ghost predicate Valid()
      reads this, layers
    {
      && (forall j :: 0 <= j < layers.Length ==> LayerOk(layers[j], j))
      && (currentEditableLayer.Some? ==> currentEditableLayer.value < layers.Length)
    }

    /** The constructor numbers every layer by its position and gives each supported one a draw control. */
    constructor (configs: seq<LayerConfig>, buttonText: string)
      ensures Valid() && fresh(layers)
      ensures layers.Length == |configs|
      ensures forall j :: 0 <= j < |configs| ==> layers[j] == Configured(configs[j], j)
      ensures currentDrawNum == 0 && currentEditableLayer == None && currentLabel == Some("")
      ensures !pressed && text == buttonText && this.buttonText == buttonText
    {
      var a := new DrawLayer[|configs|](j requires 0 <= j < |configs| => Unconfigured(configs[j]));
      var i := 0;
      while i < a.Length
        invariant 0 <= i <= a.Length
        invariant forall j :: 0 <= j < i ==> a[j] == Configured(configs[j], j)
        invariant forall j :: i <= j < a.Length ==> a[j] == Unconfigured(configs[j])
      {
        a[i] := a[i].(num := i);
        match HandlerFor(a[i].kind) {
          case Some(h) => a[i] := a[i].(control := Some(DrawControl(h, false)));
          case None =>
        }
        i := i + 1;
      }
      layers := a;
      this.buttonText := buttonText;
      currentDrawNum := 0;
      currentEditableLayer := None;
      currentLabel := Some("");
      pressed := false;
      text := buttonText;
      new;
      forall j | 0 <= j < |configs| ensures LayerOk(layers[j], j) {
        ConfiguredLayersAreWellFormed(configs, j);
      }
    }

    /**
     * `deactivateAllButCurrent`: deactivates the control of every layer whose
     * `num` differs from `currentDrawNum`; `ok` is false when it stops by
     * throwing on a layer that has no control.
     */
    method DeactivateAllButCurrent() returns (ok: bool)
      requires Valid()
      modifies layers
      ensures Valid()
      ensures layers[..] == AfterDeactivation(old(layers[..]), currentDrawNum)
      ensures ok <==> FailurePoint(old(layers[..]), currentDrawNum) == layers.Length
    {
      ghost var s := layers[..];
      ghost var k := FailurePoint(s, currentDrawNum);
      var i := 0;
      while i < layers.Length
        invariant 0 <= i <= k
        invariant forall j :: 0 <= j < layers.Length ==>
                    layers[j] == if j < i && s[j].num != currentDrawNum then Deactivated(s[j]) else s[j]
      {
        if layers[i].num != currentDrawNum {
          if layers[i].control.None? {
            assert layers[..] == AfterDeactivation(s, currentDrawNum);
            return false;
          }
          layers[i] := Deactivated(layers[i]);
        }
        i := i + 1;
      }
      assert layers[..] == AfterDeactivation(s, currentDrawNum);
      return true;
    }

    /**
     * The toggle listener on release: unchecks every menu item in order; each
     * checked item's `checkchange` handler makes its layer current again.
     */
    method ReleaseItems()
      requires Valid()
      modifies this`currentDrawNum, this`currentEditableLayer, layers
      ensures Valid()
      ensures layers[..] == Released(old(layers[..]))
      ensures match Menu.LastChecked(ItemChecks(old(layers[..])))
              case Some(j) => currentDrawNum == j && currentEditableLayer == Some(j)
              case None => currentDrawNum == old(currentDrawNum) && currentEditableLayer == old(currentEditableLayer)
    {
      ghost var s := layers[..];
      ghost var checks := ItemChecks(s);
      var i := 0;
      while i < layers.Length
        invariant 0 <= i <= layers.Length
        invariant forall j :: 0 <= j < layers.Length ==>
                    layers[j] == if j < i && s[j].itemChecked then SetItem(s[j], false) else s[j]
        invariant currentEditableLayer.Some? ==> currentEditableLayer.value < layers.Length
        invariant match Menu.LastChecked(checks[..i])
                  case Some(j) => currentDrawNum == j && currentEditableLayer == Some(j)
                  case None => currentDrawNum == old(currentDrawNum) && currentEditableLayer == old(currentEditableLayer)
      {
        Menu.LastCheckedStep(checks, i);
        if layers[i].itemChecked {
          layers[i] := SetItem(layers[i], false);
          currentDrawNum := layers[i].num;
          currentEditableLayer := Some(i);
        }
        i := i + 1;
      }
      assert checks[..i] == checks;
      assert layers[..] == Released(s);
    }

    /** `button.toggle(state)`: when it releases a pressed button, the toggle listener unchecks the menu. */
    method ToggleButton(state: bool)
      requires Valid()
      modifies this`pressed, this`currentDrawNum, this`currentEditableLayer, layers
      ensures Valid() && pressed == state
      ensures old(pressed) && !state ==> layers[..] == Released(old(layers[..]))
      ensures old(pressed) && !state ==>
                match Menu.LastChecked(ItemChecks(old(layers[..])))
                case Some(j) => currentDrawNum == j && currentEditableLayer == Some(j)
                case None => currentDrawNum == old(currentDrawNum) && currentEditableLayer == old(currentEditableLayer)
      ensures !(old(pressed) && !state) ==>
                layers[..] == old(layers[..]) && currentDrawNum == old(currentDrawNum) &&
                currentEditableLayer == old(currentEditableLayer)
    {
      if state != pressed {
        pressed := state;
        if !state {
          ReleaseItems();
        }
      }
    }

    /**
     * The `checkchange` handler for a checked item of layer `i`, between Ext
     * checking the item and the item's action activating the layer's control.
     */
    method CheckItem(i: nat) returns (ok: bool)
      requires Valid() && i < layers.Length && IsSupported(layers[i].kind)
      modifies this`pressed, this`text, this`currentDrawNum, this`currentEditableLayer, layers
      ensures Valid() && pressed
      ensures currentDrawNum == i && currentEditableLayer == Some(i)
      ensures text == ItemText(old(layers[i]))
      ensures layers[..] == AfterCheck(old(layers[..]), i)
      ensures ok <==> forall j :: 0 <= j < layers.Length && j != i ==> IsSupported(old(layers[j].kind))
    {
      ghost var s0 := layers[..];
      layers[i] := layers[i].(itemChecked := true);
      ghost var s1 := layers[..];
      assert s1 == s0[i := s0[i].(itemChecked := true)];
      currentDrawNum := layers[i].num;
      currentEditableLayer := Some(i);
      ToggleButton(true);
      text := ItemText(layers[i]);
      ok := DeactivateAllButCurrent();
      FailsOnlyOnUnsupported(s1, i);
      assert forall j :: 0 <= j < |s0| && j != i ==> s0[j].kind == s1[j].kind;
      if ok {
        CurrentLayerUntouched(s1, i, i);
        assert layers[..][i] == s1[i];
        layers[i] := SetItem(layers[i], true);
      }
    }

    /**
     * The `checkchange` handler for an unchecked item of layer `i`, between Ext
     * unchecking the item and the item's action deactivating the layer's control.
     */
    method UncheckItem(i: nat)
      requires Valid() && i < layers.Length && IsSupported(layers[i].kind)
      modifies this`pressed, this`currentDrawNum, this`currentEditableLayer, layers
      ensures Valid() && !pressed
      ensures old(pressed) ==>
                var s := old(layers[..])[i := SetItem(old(layers[i]), false)];
                layers[..] == Released(s) &&
                match Menu.LastChecked(ItemChecks(s))
                case Some(j) => currentDrawNum == j && currentEditableLayer == Some(j)
                case None => currentDrawNum == i && currentEditableLayer == Some(i)
      ensures !old(pressed) ==>
                layers[..] == old(layers[..])[i := SetItem(old(layers[i]), false)] &&
                currentDrawNum == i && currentEditableLayer == Some(i)
    {
      ghost var s0 := layers[..];
      layers[i] := layers[i].(itemChecked := false);
      ghost var s1 := layers[..];
      currentDrawNum := layers[i].num;
      currentEditableLayer := Some(i);
      ToggleButton(false);
      ghost var s2 := layers[..];
      layers[i] := SetItem(layers[i], false);
      ghost var s := s0[i := SetItem(s0[i], false)];
      assert ItemChecks(s) == ItemChecks(s1);
      if old(pressed) {
        assert layers[..] == Released(s) by {
          assert s2 == Released(s1);
          assert forall j :: 0 <= j < layers.Length ==> layers[..][j] == Released(s)[j];
        }
      } else {
        assert layers[..] == s;
      }
    }

    /**
     * The `checkchange` handler of layer `i`'s menu item. Ext sets the item's
     * check state before it runs this handler, and the item's action switches
     * the layer's control only after the handler returns. The handler makes the
     * layer current and the button follow the item; for a checked item it puts
     * the item's text on the button and sweeps the other controls off.
     */
    method OnMenuItemCheck(i: nat, checked: bool) returns (ok: bool)
      requires Valid() && i < layers.Length && IsSupported(layers[i].kind)
      modifies this`pressed, this`text, this`currentDrawNum, this`currentEditableLayer, layers
      ensures Valid() && pressed == checked
      ensures checked ==> currentDrawNum == i && currentEditableLayer == Some(i)
      ensures checked ==> text == ItemText(old(layers[i]))
      ensures checked ==> layers[..] == AfterCheck(old(layers[..]), i)
      ensures checked ==> (ok <==> forall j :: 0 <= j < layers.Length && j != i ==> IsSupported(old(layers[j].kind)))
      ensures checked && ok ==> layers[i].itemChecked && layers[i].control.Some? && layers[i].control.value.active
      ensures checked && ok ==> forall j :: 0 <= j < layers.Length && j != i ==>
                                  layers[j].control.Some? && !layers[j].control.value.active
      ensures checked && !ok ==> layers[i] == old(layers[i]).(itemChecked := true)
      ensures !checked ==> ok && text == old(text)
      ensures !checked && old(pressed) ==>
                var s := old(layers[..])[i := SetItem(old(layers[i]), false)];
                layers[..] == Released(s) &&
                match Menu.LastChecked(ItemChecks(s))
                case Some(j) => currentDrawNum == j && currentEditableLayer == Some(j)
                case None => currentDrawNum == i && currentEditableLayer == Some(i)
      ensures !checked && !old(pressed) ==>
                layers[..] == old(layers[..])[i := SetItem(old(layers[i]), false)] &&
                currentDrawNum == i && currentEditableLayer == Some(i)
    {
      if checked {
        ghost var s0 := layers[..];
        ok := CheckItem(i);
        if ok {
          AfterCheckActivatesOnlyCurrent(s0, i);
        } else {
          AfterCheckThrowKeepsControl(s0, i);
        }
      } else {
        UncheckItem(i);
        ok := true;
      }
    }

    /**
     * The `start` listener of layer `i`'s save strategy (registered only for
     * supported types). `checkbox` is the label checkbox's value, None when no
     * such component exists; `answer` is what the label prompt returns.
     */
    method OnSaveStart(i: nat, checkbox: Option<bool>, answer: Option<string>)
      requires i < layers.Length
      modifies this`currentLabel
      ensures !IsSupported(layers[i].kind) ==> currentLabel == old(currentLabel)
      ensures IsSupported(layers[i].kind) && checkbox.None? ==> currentLabel == old(currentLabel)
      ensures IsSupported(layers[i].kind) && checkbox == Some(false) ==> currentLabel == Some("")
      ensures IsSupported(layers[i].kind) && checkbox == Some(true) ==> currentLabel == answer
    {
      if IsSupported(layers[i].kind) {
        if checkbox.Some? {
          currentLabel := Some("");
          if checkbox.value {
            currentLabel := answer;
          }
        }
      }
    }

    /**
     * The `success` listener of layer `i`'s save strategy: redraws the WMS
     * counterpart of the CURRENT layer (not of layer `i`); `ok` is false when
     * there is no current layer and the handler throws.
     */
    method OnSaveSuccess(i: nat) returns (ok: bool)
      requires Valid() && i < layers.Length
      modifies layers
      ensures Valid()
      ensures ok <==> !IsSupported(layers[i].kind) || currentEditableLayer.Some?
      ensures IsSupported(layers[i].kind) && currentEditableLayer.Some? ==>
                var c := currentEditableLayer.value;
                layers[..] == old(layers[..])[c := old(layers[c]).(wmsRedraws := old(layers[c]).wmsRedraws + 1)]
      ensures !(IsSupported(layers[i].kind) && currentEditableLayer.Some?) ==> layers[..] == old(layers[..])
    {
      ok := true;
      if IsSupported(layers[i].kind) {
        match currentEditableLayer {
          case None => ok := false;
          case Some(c) => layers[c] := layers[c].(wmsRedraws := layers[c].wmsRedraws + 1);
        }
      }
    }

    /** `setCurrentEditableLayer`, for one of the configured layers. */
    method SetCurrentEditableLayer(i: nat)
      requires Valid() && i < layers.Length
      modifies this`currentEditableLayer
      ensures Valid() && currentEditableLayer == Some(i)
    {
      currentEditableLayer := Some(i);
    }

    /**
     * Building the action (`getAction`): a fresh menu whose items start checked
     * exactly when their layer's control is active (as a GeoExt action bound to
     * a control does), a fresh unpressed button, and `currentDrawNum` reset to 0.
     */
    method BuildAction()
      requires Valid()
      modifies this`currentDrawNum, this`pressed, this`text, layers
      ensures Valid()
      ensures currentDrawNum == 0 && !pressed && text == buttonText
      ensures forall j :: 0 <= j < layers.Length ==>
                layers[j] == old(layers[j]).(itemChecked := ControlActive(old(layers[j])))
    {
      var i := 0;
      while i < layers.Length
        invariant 0 <= i <= layers.Length
        invariant forall j :: 0 <= j < layers.Length ==>
                    layers[j] == if j < i then old(layers[j]).(itemChecked := ControlActive(old(layers[j])))
                                 else old(layers[j])
      {
        layers[i] := layers[i].(itemChecked := ControlActive(layers[i]));
        i := i + 1;
      }
      currentDrawNum := 0;
      pressed := false;
      text := buttonText;
    }

    /**
     * A click on the split button: Ext flips `pressed` first (running the
     * toggle listener), then the handler either re-checks the current layer's
     * item or resets the text and redraws every layer.
     */
    method OnButtonClick() returns (ok: bool)
      requires Valid()
      modifies this`pressed, this`text, this`currentDrawNum, this`currentEditableLayer, layers
      ensures Valid() && pressed == !old(pressed)
      ensures old(pressed) ==> ok && text == buttonText
      ensures old(pressed) ==> forall j :: 0 <= j < layers.Length ==>
                layers[j] == Released(old(layers[..]))[j].(redraws := old(layers[j].redraws) + 1)
      ensures old(pressed) ==> forall j :: 0 <= j < layers.Length ==> !layers[j].itemChecked
      ensures old(pressed) ==>
                match Menu.LastChecked(ItemChecks(old(layers[..])))
                case Some(j) => currentDrawNum == j && currentEditableLayer == Some(j)
                case None => currentDrawNum == old(currentDrawNum) && currentEditableLayer == old(currentEditableLayer)
      ensures !old(pressed) ==>
                match ItemForLayer(old(layers[..]), old(currentDrawNum))
                case Some(i) =>
                  if old(layers[i].itemChecked) then
                    && ok && layers[..] == old(layers[..]) && text == old(text)
                    && currentDrawNum == old(currentDrawNum) && currentEditableLayer == old(currentEditableLayer)
                  else
                    && layers[..] == AfterCheck(old(layers[..]), i)
                    && currentDrawNum == i && currentEditableLayer == Some(i)
                    && text == ItemText(old(layers[i]))
                    && (ok <==> forall j :: 0 <= j < layers.Length && j != i ==> IsSupported(old(layers[j].kind)))
                case None =>
                  && ok && layers[..] == old(layers[..]) && text == old(text)
                  && currentDrawNum == old(currentDrawNum) && currentEditableLayer == old(currentEditableLayer)
    {
      ok := true;
      var wasPressed := pressed;
      ToggleButton(!pressed);
      if !wasPressed {
        var item := ItemForLayer(layers[..], currentDrawNum);
        if item.Some? && !layers[item.value].itemChecked {
          ok := OnMenuItemCheck(item.value, true);
        }
      } else {
        ghost var s := layers[..];
        text := buttonText;
        var i := 0;
        while i < layers.Length
          invariant 0 <= i <= layers.Length
          invariant forall j :: 0 <= j < layers.Length ==>
                      layers[j] == if j < i then s[j].(redraws := s[j].redraws + 1) else s[j]
          modifies layers
        {
          layers[i] := layers[i].(redraws := layers[i].redraws + 1);
          i := i + 1;
        }
      }
    }
  }
}
