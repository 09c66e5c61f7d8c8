/**
 * The troubleshooting page's checklist: a sparse record from step keys `item-<index>` to
 * booleans, in which an absent key reads as unchecked and a click flips one step.
 */
module Checklist {

  import opened Text

  /** `Record<string, boolean>`: only keys that were ever clicked are present. */
  type Checks = map<string, bool>

  /** `checkedItems[key]` used as a condition: an absent key reads as false. */
  function IsChecked(m: Checks, key: string): (b: bool)
    ensures key !in m ==> !b
    ensures key in m ==> (b <==> m[key])
  {
    key in m && m[key]
  }

  /** `toggleCheck(key)`: `{ ...prev, [key]: !prev[key] }`. */
  function ToggleCheck(m: Checks, key: string): (r: Checks)
    ensures IsChecked(r, key) <==> !IsChecked(m, key)
    ensures r.Keys == m.Keys + {key}
    ensures forall k :: k in m && k != key ==> r[k] == m[k]
  {
    m[key := !IsChecked(m, key)]
  }

  /** A second click on the same key gives back its reading, and keeps every other key. */
  lemma ToggleTwice(m: Checks, key: string)
    ensures ToggleCheck(ToggleCheck(m, key), key) == m[key := IsChecked(m, key)]
  {
  }

  /** Two clicks on one key give back the very record exactly when that key was present before. */
  lemma ToggleTwiceRestores(m: Checks, key: string)
    ensures ToggleCheck(ToggleCheck(m, key), key) == m <==> key in m
  {
    var r := ToggleCheck(ToggleCheck(m, key), key);
    if key in m {
      assert r == m[key := m[key]];
      assert m[key := m[key]] == m;
    } else {
      assert key in r.Keys;
    }
  }

  /** Clicks on different keys commute. */
  lemma ToggleCommutes(m: Checks, k1: string, k2: string)
    requires k1 != k2
    ensures ToggleCheck(ToggleCheck(m, k1), k2) == ToggleCheck(ToggleCheck(m, k2), k1)
  {
  }

  /** The key of the step at `index`: the template literal `item-${index}`. */
  function ItemKey(index: nat): (k: string)
    ensures |k| > 5 && k[..5] == "item-"
  {
    "item-" + Decimal(index)
  }

  /** Distinct steps have distinct keys. */
  lemma ItemKeyInjective(i: nat, j: nat)
    ensures ItemKey(i) == ItemKey(j) <==> i == j
  {
    if ItemKey(i) == ItemKey(j) {
      assert Decimal(i) == ItemKey(i)[5..];
      assert Decimal(j) == ItemKey(j)[5..];
      DecimalInjective(i, j);
    }
  }

  /** The steps, among the first `count`, that read as checked. */
  function CheckedSteps(m: Checks, count: nat): (r: set<nat>)
    ensures forall i: nat :: i in r <==> i < count && IsChecked(m, ItemKey(i))
  {
    set i: nat | i < count && IsChecked(m, ItemKey(i))
  }

  /** Clicking step `index` flips that step alone: the checked steps gain or lose exactly `index`. */
  lemma ToggleFlipsOneStep(m: Checks, index: nat, count: nat)
    requires index < count
    ensures var before := CheckedSteps(m, count);
      CheckedSteps(ToggleCheck(m, ItemKey(index)), count)
        == if index in before then before - {index} else before + {index}
  {
    var before := CheckedSteps(m, count);
    var after := CheckedSteps(ToggleCheck(m, ItemKey(index)), count);
    var expected := if index in before then before - {index} else before + {index};
    forall i: nat | i < count
      ensures i in after <==> i in expected
    {
      ItemKeyInjective(i, index);
    }
    assert forall i :: i in after ==> i < count;
    assert forall i :: i in expected ==> i < count;
  }

  /** The page's `checkedItems` state cell. */
  class ChecklistPage {
    var checkedItems: Checks

    /** `useState<Record<string, boolean>>({})`: every step starts unchecked. */
    constructor()
      ensures checkedItems == map[]
      ensures forall i: nat :: !StepChecked(i)
    {
      checkedItems := map[];
    }

    /** Whether the step at `index` renders with its check mark and struck-through title. */
    function StepChecked(index: nat): (b: bool)
      reads this
      ensures b <==> ItemKey(index) in checkedItems && checkedItems[ItemKey(index)]
    {
      IsChecked(checkedItems, ItemKey(index))
    }

    /** The click handler of a step's check box. */
    method Toggle(key: string)
      modifies this
      ensures checkedItems == ToggleCheck(old(checkedItems), key)
    {
      checkedItems := ToggleCheck(checkedItems, key);
    }

    /** The click handler of the step at `index`: it flips that step and no other. */
    method ToggleStep(index: nat)
      modifies this
      ensures StepChecked(index) <==> !old(StepChecked(index))
      ensures forall i: nat :: i != index ==> (StepChecked(i) <==> old(StepChecked(i)))
    {
      Toggle(ItemKey(index));
      forall i: nat | i != index
        ensures ItemKey(i) != ItemKey(index)
      {
        ItemKeyInjective(i, index);
      }
    }
  }

}
