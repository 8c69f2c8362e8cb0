/** Check states of an Ext split-button menu, shared by both tools. */
module Menu {
  import opened Wrappers

  /**
   * When a button is released, its toggle listener unchecks every menu item in
   * order; each item that was checked fires its `checkchange` handler, so the
   * assignments of the LAST checked item are the ones left behind.
   */
  function LastChecked(checks: seq<bool>): (r: Option<nat>)
    ensures r.Some? ==> r.value < |checks| && checks[r.value]
    ensures r.Some? ==> forall j :: r.value < j < |checks| ==> !checks[j]
    ensures r.None? ==> forall j :: 0 <= j < |checks| ==> !checks[j]
  {
    if checks == [] then None
    else if checks[|checks| - 1] then Some(|checks| - 1)
    else
      var r := LastChecked(checks[..|checks| - 1]);
      assert forall j :: 0 <= j < |checks| - 1 ==> checks[..|checks| - 1][j] == checks[j];
      r
  }

  /** One more item swept: the last checked item of a longer prefix. */
  lemma {:induction false} LastCheckedStep(checks: seq<bool>, i: nat)
    requires i < |checks|
    ensures LastChecked(checks[..i + 1]) ==
              if checks[i] then Some(i) else LastChecked(checks[..i])
  {
    assert checks[..i + 1][..i] == checks[..i];
  }
}
