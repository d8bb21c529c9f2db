/**
 * Slot selection on the check-in screen: toggling one slot, selecting all
 * or none, and enabling the submit button.
 */
module CheckInScreen {

  type SlotId = string

  /** `prev.filter(id => id !== slotId)`: every occurrence of `id` removed, order kept. */
  function Without(s: seq<SlotId>, id: SlotId): seq<SlotId> {
    if s == [] then []
    else (if s[0] == id then [] else [s[0]]) + Without(s[1..], id)
  }

  /** `handleToggleSlot`: drop `id` when it is selected, otherwise append it. */
  function Toggled(selected: seq<SlotId>, id: SlotId): seq<SlotId> {
    if id in selected then Without(selected, id) else selected + [id]
  }

  /** No id appears twice. */
  predicate NoDuplicates(s: seq<SlotId>) {
    forall i, j :: 0 <= i < j < |s| ==> s[i] != s[j]
  }

  /** Removal keeps exactly the other ids, in their order. */
  lemma {:induction false} WithoutEffect(s: seq<SlotId>, id: SlotId)
    ensures id !in Without(s, id)
    ensures forall x :: x in Without(s, id) <==> x in s && x != id
    ensures multiset(Without(s, id)) == multiset(s)[id := 0]
  {
    if s != [] {
      WithoutEffect(s[1..], id);
      assert s == [s[0]] + s[1..];
    }
  }

  /** Removing an id that is not there changes nothing. */
  lemma {:induction false} WithoutAbsent(s: seq<SlotId>, id: SlotId)
    requires id !in s
    ensures Without(s, id) == s
  {
    if s != [] {
      WithoutAbsent(s[1..], id);
    }
  }

  /** Removing the last element of a sequence without duplicates gives the rest. */
  lemma WithoutLast(s: seq<SlotId>, id: SlotId)
    requires id !in s
    ensures Without(s + [id], id) == s
  {
    WithoutAppend(s, [id], id);
    WithoutAbsent(s, id);
  }

  lemma {:induction false} WithoutAppend(a: seq<SlotId>, b: seq<SlotId>, id: SlotId)
    ensures Without(a + b, id) == Without(a, id) + Without(b, id)
  {
    if a == [] {
      assert a + b == b;
    } else {
      assert (a + b)[1..] == a[1..] + b;
      WithoutAppend(a[1..], b, id);
    }
  }

  lemma {:induction false} WithoutKeepsNoDuplicates(s: seq<SlotId>, id: SlotId)
    requires NoDuplicates(s)
    ensures NoDuplicates(Without(s, id))
  {
    if s != [] {
      WithoutKeepsNoDuplicates(s[1..], id);
      WithoutEffect(s[1..], id);
      var rest := Without(s[1..], id);
      if s[0] != id {
        assert s[0] !in s[1..];
        assert s[0] !in rest;
        forall i, j | 0 <= i < j < |[s[0]] + rest| ensures ([s[0]] + rest)[i] != ([s[0]] + rest)[j] {
          if i == 0 {
            assert ([s[0]] + rest)[j] in rest;
          }
        }
      }
    }
  }

  /** Toggling an unselected id appends it; toggling a selected id removes every occurrence. */
  lemma ToggledEffect(selected: seq<SlotId>, id: SlotId)
    ensures id !in selected ==> Toggled(selected, id) == selected + [id]
    ensures id in selected ==>
              id !in Toggled(selected, id) &&
              (forall x :: x != id ==> (x in Toggled(selected, id) <==> x in selected))
  {
    WithoutEffect(selected, id);
  }

  /** A toggle never introduces a duplicate. */
  lemma ToggledKeepsNoDuplicates(selected: seq<SlotId>, id: SlotId)
    requires NoDuplicates(selected)
    ensures NoDuplicates(Toggled(selected, id))
  {
    if id in selected {
      WithoutKeepsNoDuplicates(selected, id);
    }
  }

  /** In a sequence without duplicates, removing the id at `i` cuts out just that position. */
  lemma WithoutSingle(s: seq<SlotId>, i: int)
    requires NoDuplicates(s) && 0 <= i < |s|
    ensures Without(s, s[i]) == s[..i] + s[i + 1..]
  {
    var id := s[i];
    var front, back := s[..i], s[i + 1..];
    assert s == front + [id] + back;
    assert id !in front && id !in back;
    WithoutAppend(front + [id], back, id);
    WithoutLast(front, id);
    WithoutAbsent(back, id);
  }

  /** Putting the element at `i` back at the end keeps the same collection of ids. */
  lemma MoveToEnd(s: seq<SlotId>, i: int)
    requires 0 <= i < |s|
    ensures multiset(s[..i] + s[i + 1..] + [s[i]]) == multiset(s)
  {
    assert s == s[..i] + [s[i]] + s[i + 1..];
  }

  /** Toggling a selected id off and on again moves it to the end. */
  lemma ToggleTwicePresent(selected: seq<SlotId>, i: int)
    requires NoDuplicates(selected) && 0 <= i < |selected|
    ensures Toggled(Toggled(selected, selected[i]), selected[i]) == selected[..i] + selected[i + 1..] + [selected[i]]
  {
    var id := selected[i];
    WithoutSingle(selected, i);
    var once := selected[..i] + selected[i + 1..];
    assert id !in once by {
      assert id !in selected[..i] && id !in selected[i + 1..];
    }
  }

  /**
   * Toggling twice restores the selection when it has no duplicates: exactly
   * when the id was absent or last, and as a collection of ids otherwise.
   */
  lemma ToggleTwice(selected: seq<SlotId>, id: SlotId)
    requires NoDuplicates(selected)
    ensures multiset(Toggled(Toggled(selected, id), id)) == multiset(selected)
    ensures id !in selected ==> Toggled(Toggled(selected, id), id) == selected
    ensures id in selected && selected[|selected| - 1] == id ==> Toggled(Toggled(selected, id), id) == selected
  {
    if id !in selected {
      WithoutLast(selected, id);
    } else {
      var i :| 0 <= i < |selected| && selected[i] == id;
      ToggleTwicePresent(selected, i);
      MoveToEnd(selected, i);
      if selected[|selected| - 1] == id {
        assert i == |selected| - 1;
        assert selected[..i] + selected[i + 1..] + [id] == selected;
      }
    }
  }

  class SlotPicker {
    /** The ids of the slots on offer, in display order. */
    const slotIds: seq<SlotId>
    var selectedSlots: seq<SlotId>

    constructor (offered: seq<SlotId>)
      ensures slotIds == offered && selectedSlots == []
    {
      slotIds := offered;
      selectedSlots := [];
    }

    method ToggleSlot(id: SlotId)
      modifies this
      ensures selectedSlots == Toggled(old(selectedSlots), id)
    {
      if id in selectedSlots {
        selectedSlots := Without(selectedSlots, id);
      } else {
        selectedSlots := selectedSlots + [id];
      }
    }

    /** `handleSelectAll`: every offered slot, in display order. */
    method SelectAll()
      modifies this
      ensures selectedSlots == slotIds
    {
      selectedSlots := slotIds;
    }

    /** `handleSelectNone`. */
    method SelectNone()
      modifies this
      ensures selectedSlots == []
      ensures !SubmitEnabled()
    {
      selectedSlots := [];
    }

    /** The submit button is disabled while nothing is selected. */
    predicate SubmitEnabled()
      reads this
    {
      |selectedSlots| != 0
    }
  }

  /** After selecting a slot there is always something to submit. */
  lemma ToggleOnEnablesSubmit(selected: seq<SlotId>, id: SlotId)
    requires id !in selected
    ensures |Toggled(selected, id)| > 0 && id in Toggled(selected, id)
  {
  }
}
