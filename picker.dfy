/** The dialog that asks the user to pick one package.json among the
    candidates found under the project folder (`PackageJsonFinder`). */
module Picker {
  import opened PyText
  import opened Listings

  class PackageJsonFinder {
    /** Every candidate path, in the order found. */
    var candidatesAll: seq<string>
    /** The text typed into the filter entry. */
    var filterText: string
    /** The candidates the list box shows. */
    var filtered: seq<string>
    /** The chosen path, once the user has confirmed a selection. */
    var chosen: Option<string>
    /** Whether the dialog has been destroyed. */
    var closed: bool

    /** The list box always shows the candidates the filter text selects,
        and a chosen path is one of the candidates. */
    ghost predicate Valid()
      reads this
    {
      filtered == FilterCandidates(candidatesAll, filterText)
      && (chosen.Some? ==> chosen.value in candidatesAll)
      && (closed <==> chosen.Some?)
    }

    /** `__init__`: an empty filter, every candidate shown, nothing chosen. */
    constructor (candidates: seq<string>)
      ensures Valid()
      ensures candidatesAll == candidates && filterText == []
      ensures filtered == candidates
      ensures chosen == None && !closed
    {
      BlankFilterKeepsAll(candidates, []);
      candidatesAll := candidates;
      filterText := [];
      filtered := FilterCandidates(candidates, []);
      chosen := None;
      closed := false;
    }

    /** `update_list`: recompute the shown candidates from the filter text. */
    method UpdateList()
      modifies this
      ensures filtered == FilterCandidates(candidatesAll, filterText)
      ensures candidatesAll == old(candidatesAll) && filterText == old(filterText)
      ensures chosen == old(chosen) && closed == old(closed)
    {
      filtered := FilterCandidates(candidatesAll, filterText);
    }

    /** Typing into the entry: the filter variable's trace runs
        `update_list`. */
    method TypeFilter(text: string)
      requires Valid()
      modifies this
      ensures Valid()
      ensures filterText == text
      ensures filtered == FilterCandidates(candidatesAll, text)
      ensures candidatesAll == old(candidatesAll) && chosen == old(chosen) && closed == old(closed)
    {
      filterText := text;
      UpdateList();
    }

    /** `use_selected`: with a selection in a non-empty list, the first
        selected candidate becomes the match and the dialog closes;
        otherwise nothing happens. The selection holds indices of the shown
        list, as the list box reports them. */
    method UseSelected(selection: seq<nat>)
      requires Valid()
      requires forall k :: 0 <= k < |selection| ==> selection[k] < |filtered|
      modifies this
      ensures Valid()
      ensures selection != [] && old(filtered) != [] ==>
        chosen == Some(old(filtered)[selection[0]]) && closed
      ensures selection == [] || old(filtered) == [] ==>
        chosen == old(chosen) && closed == old(closed)
      ensures chosen.Some? && old(chosen) != chosen ==>
        Contains(Lower(chosen.value), Needle(filterText))
      ensures candidatesAll == old(candidatesAll) && filterText == old(filterText)
      ensures filtered == old(filtered)
    {
      if selection != [] && filtered != [] {
        chosen := Some(filtered[selection[0]]);
        closed := true;
      }
    }
  }
}
