/**
 * The unified tab dispatcher. Every tab button belongs to one of two families
 * ("tab-btn" buttons with "tab-content" panels, "eval-btn" buttons with
 * "eval-content" panels). A click on a button, inside the container the
 * button resolves to, clears the "active" flag of every button and every panel
 * of the button's family, then sets it on the clicked button and on the panel
 * whose id is the button's `data-target`.
 */
module TabDispatch {

  datatype Option<T> = None | Some(value: T)

  /** "tab-btn"/"tab-content" or "eval-btn"/"eval-content". */
  datatype Family = TabFamily | EvalFamily

  /**
   * A button or a panel of a container: its family, its name (the
   * `data-target` attribute of a button, the `id` of a panel) and whether it
   * carries the "active" class.
   */
  datatype Element = Element(family: Family, name: string, active: bool)

  /** One element after `classList.remove('active')` when it is of family `fam`. */
  function Off(e: Element, fam: Family): (r: Element)
    ensures r.family == e.family && r.name == e.name
    ensures r.active <==> e.active && e.family != fam
  {
    if e.family == fam then e.(active := false) else e
  }

  /** A `querySelectorAll('.' + cls).forEach(x => x.classList.remove('active'))` over a sequence. */
  function Deactivate(es: seq<Element>, fam: Family): (r: seq<Element>)
    ensures |r| == |es|
  {
    if es == [] then [] else [Off(es[0], fam)] + Deactivate(es[1..], fam)
  }

  /** Deactivate works element by element: it keeps the length and changes only flags of family `fam`. */
  lemma {:induction false} DeactivateAt(es: seq<Element>, fam: Family, k: nat)
    requires k < |es|
    ensures Deactivate(es, fam)[k] == Off(es[k], fam)
  {
    if k > 0 {
      DeactivateAt(es[1..], fam, k - 1);
    } else {
      assert Deactivate(es, fam)[0] == Off(es[0], fam);
      if |es| > 1 {
        DeactivateAt(es[1..], fam, 0);
      }
    }
  }

  /**
   * `container.querySelector('#' + id)` among the panels: the first panel
   * whose id is `id`. An empty `id` makes the selector "#", which is not a
   * valid selector, so the lookup throws and no panel is activated.
   */
  function TargetPanel(ps: seq<Element>, id: string): (r: Option<nat>)
    ensures id == "" ==> r == None
    ensures r.Some? ==> r.value < |ps| && ps[r.value].name == id
    ensures r.Some? ==> forall k :: 0 <= k < r.value ==> ps[k].name != id
    ensures r.None? && id != "" ==> forall k :: 0 <= k < |ps| ==> ps[k].name != id
  {
    if id == "" then None else FindById(ps, id, 0)
  }

  function FindById(ps: seq<Element>, id: string, from: nat): (r: Option<nat>)
    requires from <= |ps|
    ensures r.Some? ==> from <= r.value < |ps| && ps[r.value].name == id
    ensures r.Some? ==> forall k :: from <= k < r.value ==> ps[k].name != id
    ensures r.None? ==> forall k :: from <= k < |ps| ==> ps[k].name != id
    decreases |ps| - from
  {
    if from == |ps| then None
    else if ps[from].name == id then Some(from)
    else FindById(ps, id, from + 1)
  }

  /** The buttons after a click on button `b`. */
  function ClickButtons(bs: seq<Element>, b: nat): (r: seq<Element>)
    requires b < |bs|
    ensures |r| == |bs|
  {
    Deactivate(bs, bs[b].family)[b := bs[b].(active := true)]
  }

  /** The panels after a click on a button of family `fam` whose target is `target`. */
  function ClickPanels(ps: seq<Element>, fam: Family, target: string): (r: seq<Element>)
    ensures |r| == |ps|
  {
    var off := Deactivate(ps, fam);
    match TargetPanel(off, target)
    case None => off
    case Some(j) => off[j := off[j].(active := true)]
  }

  /** The loop of one `forEach` that removes "active" from every element of family `fam`. */
  method DeactivateAll(es: seq<Element>, fam: Family) returns (r: seq<Element>)
    ensures r == Deactivate(es, fam)
  {
    r := es;
    var i := 0;
    while i < |r|
      invariant 0 <= i <= |r| == |es|
      invariant forall k :: 0 <= k < i ==> r[k] == Off(es[k], fam)
      invariant forall k :: i <= k < |r| ==> r[k] == es[k]
    {
      if r[i].family == fam {
        r := r[i := r[i].(active := false)];
      }
      i := i + 1;
    }
    forall k | 0 <= k < |r|
      ensures r[k] == Deactivate(es, fam)[k]
    {
      DeactivateAt(es, fam, k);
    }
  }

  /** The buttons and panels of one tab container (`closest('.tab-container')`). */
  class TabContainer {
    var buttons: seq<Element>
    var panels: seq<Element>

    constructor (buttons: seq<Element>, panels: seq<Element>)
      ensures this.buttons == buttons && this.panels == panels
    {
      this.buttons := buttons;
      this.panels := panels;
    }

    /** The click listener of button `b`. */
    method Click(b: nat)
      requires b < |buttons|
      modifies this
      ensures buttons == ClickButtons(old(buttons), b)
      ensures panels == ClickPanels(old(panels), old(buttons)[b].family, old(buttons)[b].name)
    {
      var button := buttons[b];
      var targetId := button.name;
      var fam := button.family;
      buttons := DeactivateAll(buttons, fam);
      panels := DeactivateAll(panels, fam);
      DeactivateAt(old(buttons), fam, b);
      buttons := buttons[b := buttons[b].(active := true)];
      var targetContent := TargetPanel(panels, targetId);
      if targetContent.Some? {
        var j := targetContent.value;
        panels := panels[j := panels[j].(active := true)];
      }
    }
  }

  /**
   * After a click, within the clicked button's family, the clicked button is
   * the only active button; buttons of the other family keep their flags; no
   * button changes family or target.
   */
  lemma ClickedButtonOnlyActive(bs: seq<Element>, b: nat)
    requires b < |bs|
    ensures |ClickButtons(bs, b)| == |bs|
    ensures forall k :: 0 <= k < |bs| && bs[k].family == bs[b].family ==>
      (ClickButtons(bs, b)[k].active <==> k == b)
    ensures forall k :: 0 <= k < |bs| && bs[k].family != bs[b].family ==>
      ClickButtons(bs, b)[k] == bs[k]
    ensures forall k :: 0 <= k < |bs| ==>
      ClickButtons(bs, b)[k].family == bs[k].family && ClickButtons(bs, b)[k].name == bs[k].name
  {
    var fam := bs[b].family;
    forall k | 0 <= k < |bs|
      ensures Deactivate(bs, fam)[k] == Off(bs[k], fam)
    {
      DeactivateAt(bs, fam, k);
    }
  }

  /**
   * After a click, a panel of the button's family is active exactly when it is
   * the first panel whose id is the target; a panel of the other family keeps
   * its flag unless it is that panel, which is activated whatever its family.
   * No panel changes family or id.
   */
  lemma ClickedPanelOnlyActive(ps: seq<Element>, fam: Family, target: string)
    ensures |ClickPanels(ps, fam, target)| == |ps|
    ensures forall k :: 0 <= k < |ps| && ps[k].family == fam ==>
      (ClickPanels(ps, fam, target)[k].active <==> TargetPanel(ps, target) == Some(k))
    ensures TargetPanel(ps, target).Some? ==> ClickPanels(ps, fam, target)[TargetPanel(ps, target).value].active
    ensures forall k :: 0 <= k < |ps| && ps[k].family != fam && TargetPanel(ps, target) != Some(k) ==>
      ClickPanels(ps, fam, target)[k] == ps[k]
    ensures forall k :: 0 <= k < |ps| ==>
      ClickPanels(ps, fam, target)[k].family == ps[k].family && ClickPanels(ps, fam, target)[k].name == ps[k].name
  {
    forall k | 0 <= k < |ps|
      ensures Deactivate(ps, fam)[k] == Off(ps[k], fam)
    {
      DeactivateAt(ps, fam, k);
    }
    SameNamesSameTarget(ps, Deactivate(ps, fam), target);
  }

  /** The target lookup depends only on the ids, not on the flags. */
  lemma SameNamesSameTarget(ps: seq<Element>, qs: seq<Element>, id: string)
    requires |ps| == |qs|
    requires forall k :: 0 <= k < |ps| ==> ps[k].name == qs[k].name
    ensures TargetPanel(ps, id) == TargetPanel(qs, id)
  {
    if id != "" {
      var r, s := TargetPanel(ps, id), TargetPanel(qs, id);
      if r.Some? && s.Some? {
        assert !(r.value < s.value) && !(s.value < r.value);
      }
    }
  }

  /**
   * With well-formed markup (panel ids unique in the container) and a target
   * that names a panel of the button's family, that panel is the only active
   * panel of the family and every panel of the other family is untouched.
   */
  lemma UniqueTargetPanel(ps: seq<Element>, fam: Family, target: string, j: nat)
    requires forall k, l :: 0 <= k < l < |ps| ==> ps[k].name != ps[l].name
    requires j < |ps| && ps[j].name == target && target != "" && ps[j].family == fam
    ensures forall k :: 0 <= k < |ps| && ps[k].family == fam ==>
      (ClickPanels(ps, fam, target)[k].active <==> k == j)
    ensures forall k :: 0 <= k < |ps| && ps[k].family != fam ==>
      ClickPanels(ps, fam, target)[k] == ps[k]
  {
    ClickedPanelOnlyActive(ps, fam, target);
    assert TargetPanel(ps, target) == Some(j);
  }
}
