/**
 * The selection of the view model: an ordered list of entity ids whose first element is
 * the primary selection. The editor that owns it is not part of this model; its
 * `toggleSelection` is taken to remove every occurrence of an id that is present and to
 * append an id that is absent.
 */
module Selection {
  import opened Seqs

  /** `selection.includes(id)`: the id occurs somewhere in the selection. */
  function IsSelected(selection: seq<string>, id: string): bool {
    id in selection
  }

  /** `selection.length > 0 && selection[0] === id`. */
  function IsPrimarySelection(selection: seq<string>, id: string): (r: bool)
    ensures r ==> IsSelected(selection, id)
  {
    |selection| > 0 && selection[0] == id
  }

  /** The editor's toggle: deselect a selected id, otherwise select it last. */
  function Toggled(selection: seq<string>, id: string): seq<string> {
    if IsSelected(selection, id) then Except(selection, {id}) else selection + [id]
  }

  /**
   * The guarded toggle that both `delete` methods run before removing an entity:
   * `if (this.isSelected) toggleSelection(this)`.
   */
  function Deselected(selection: seq<string>, id: string): seq<string> {
    if IsSelected(selection, id) then Toggled(selection, id) else selection
  }

  /** Toggling flips the membership of the toggled id and leaves every other id alone. */
  lemma ToggleFlips(selection: seq<string>, id: string, other: string)
    ensures IsSelected(Toggled(selection, id), id) <==> !IsSelected(selection, id)
    ensures other != id ==> (IsSelected(Toggled(selection, id), other) <==> IsSelected(selection, other))
  {
  }

  /** Toggling the same id twice restores the membership of every id. */
  lemma ToggleTwice(selection: seq<string>, id: string, other: string)
    ensures IsSelected(Toggled(Toggled(selection, id), id), other) <==> IsSelected(selection, other)
  {
    ToggleFlips(selection, id, other);
    ToggleFlips(Toggled(selection, id), id, other);
  }

  /** Selecting an id that was not selected makes it primary exactly when nothing else was selected. */
  lemma ToggleSelectsLast(selection: seq<string>, id: string)
    requires !IsSelected(selection, id)
    ensures Toggled(selection, id) == selection + [id]
    ensures IsPrimarySelection(Toggled(selection, id), id) <==> selection == []
  {
  }

  /** The guarded toggle removes every occurrence of the id and nothing else, in order. */
  lemma {:induction false} DeselectedRemovesId(selection: seq<string>, id: string)
    ensures Deselected(selection, id) == Except(selection, {id})
    ensures !IsSelected(Deselected(selection, id), id)
  {
    if !IsSelected(selection, id) {
      ExceptNothing(selection, {id});
    }
  }
}
