/** The older `input_treeview` of shiny_treeview/treeview.py: the same
    duplicate check, normalisation and auto-expansion as ui.py, with the
    items serialised by data.py's caption-less `to_dict()`. */
module Treeview {
  import opened Wrappers
  import opened Tree
  import opened Forest
  import opened Duplicates
  import opened StringOrder
  import Data
  import Client
  import opened Ui

  /** `input_treeview` of treeview.py: the payload differs from ui.py's only
      in how the roots are serialised. */
  method InputTreeview(items: seq<Node>, multiple: bool, selected: IdArg, expanded: IdArg)
    returns (r: Result<Payload, InputError>)
    ensures r.Failure? <==> !Distinct(PreorderIds(items))
    ensures r.Failure? ==> StrictlyAscending(r.error.ids)
    ensures r.Failure? ==> forall x :: x in r.error.ids <==> x in Repeated(PreorderIds(items))
    ensures r.Success? ==> r.value.items == Data.ToDicts(items) && r.value.multiple == multiple
    ensures r.Success? ==> r.value.selected == NormalizeIds(selected)
    ensures r.Success? ==> r.value.expanded == ExpandedIds(items, selected, expanded)
  {
    var duplicates := DuplicateIds(items);
    if duplicates != [] {
      return Failure(DuplicateTreeItemIds(duplicates));
    }
    var selectedItems := NormalizeIds(selected);
    var expandedItems;
    if expanded.Omitted? {
      expandedItems := AutoExpand(items, selectedItems);
    } else {
      expandedItems := NormalizeIds(expanded);
    }
    r := Success(Payload(Data.ToDicts(items), multiple, selectedItems, expandedItems));
  }

  /** The browser reads this payload back as it reads ui.py's. */
  lemma BrowserReadsPayload(items: seq<Node>, p: Payload)
    requires p.items == Data.ToDicts(items)
    ensures Client.ReadConfig(Some(PayloadJson(p)))
      == Client.Config(Client.ShownAll(items), p.multiple, p.selected, p.expanded)
  {
    PayloadKeys(p);
    Client.ValidateToDicts(items);
    Client.ParseStringArrayRoundTrip(p.selected, []);
    Client.ParseStringArrayRoundTrip(p.expanded, []);
  }
}
