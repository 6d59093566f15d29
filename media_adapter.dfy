/**
 * The selection logic of the thumbnail list adapter: the set of selected
 * URI strings, the queries over it, the row label and checkbox state of
 * `bind`, the item callbacks of `DIFF`, and the sample-size loop
 * `calcSample` used to decode thumbnails.
 */
module MediaAdapterModel {
  import opened Common
  import opened Text
  import opened Engine

  // ---------------------------------------------------------------------
  // Selection, as functions of the list and the selected set

  /** The URIs of a list's items. */
  function UriSet(list: seq<Item>): set<string> {
    set i | 0 <= i < |list| :: list[i].uri
  }

  /** `isAllSelected`: the list is non-empty and every item's URI is selected. */
  function AllSelected(list: seq<Item>, sel: set<string>): (b: bool)
    ensures b <==> list != [] && UriSet(list) <= sel
  {
    |list| > 0 && forall i :: 0 <= i < |list| ==> list[i].uri in sel
  }

  /** `selectedItems`: the items whose URI is selected, in list order. */
  function SelectedOf(list: seq<Item>, sel: set<string>): (r: seq<Item>)
    ensures |r| <= |list|
    ensures forall x :: x in r <==> x in list && x.uri in sel
  {
    if list == [] then []
    else
      var init := SelectedOf(list[..|list| - 1], sel);
      var x := list[|list| - 1];
      assert forall y :: y in list <==> y in list[..|list| - 1] || y == x;
      if x.uri in sel then init + [x] else init
  }

  /** The selected set after the checkbox listener fires. */
  function Toggle(sel: set<string>, uri: string, isChecked: bool): (s: set<string>)
    ensures uri in s <==> isChecked
    ensures forall u :: u != uri ==> (u in s <==> u in sel)
  {
    if isChecked then sel + {uri} else sel - {uri}
  }

  /**
   * `selectedItems` keeps list order: the selection of a concatenation is
   * the concatenation of the selections.
   */
  lemma {:induction false} SelectedOfAppend(a: seq<Item>, b: seq<Item>, sel: set<string>)
    ensures SelectedOf(a + b, sel) == SelectedOf(a, sel) + SelectedOf(b, sel)
    decreases |b|
  {
    if b == [] {
      assert a + b == a;
    } else {
      var b' := b[..|b| - 1];
      assert (a + b)[..|a + b| - 1] == a + b';
      SelectedOfAppend(a, b', sel);
    }
  }

  /** With nothing selected, `selectedItems` is empty. */
  lemma NothingSelected(list: seq<Item>)
    ensures SelectedOf(list, {}) == []
  {
  }

  /** When every URI is selected, `selectedItems` is the whole list. */
  lemma {:induction false} EverythingSelected(list: seq<Item>, sel: set<string>)
    requires UriSet(list) <= sel
    ensures SelectedOf(list, sel) == list
  {
    if list != [] {
      var init := list[..|list| - 1];
      assert UriSet(init) <= UriSet(list) by {
        forall u | u in UriSet(init) ensures u in UriSet(list) {
          var i :| 0 <= i < |init| && init[i].uri == u;
          assert list[i].uri == u;
        }
      }
      EverythingSelected(init, sel);
      assert list[|list| - 1].uri in UriSet(list);
      assert init + [list[|list| - 1]] == list;
    }
  }

  /**
   * After select-all, `isAllSelected` holds exactly when the list is
   * non-empty, and `selectedItems` is the whole list.
   */
  lemma SelectAllThenQuery(list: seq<Item>, sel: set<string>)
    ensures AllSelected(list, sel + UriSet(list)) <==> list != []
    ensures SelectedOf(list, sel + UriSet(list)) == list
  {
    EverythingSelected(list, sel + UriSet(list));
  }

  /** `isAllSelected` means `selectedItems` is the whole, non-empty list. */
  lemma AllSelectedMeansWholeList(list: seq<Item>, sel: set<string>)
    requires AllSelected(list, sel)
    ensures SelectedOf(list, sel) == list && list != []
  {
    EverythingSelected(list, sel);
  }

  /** Checking a row and unchecking it again leaves the other rows' URIs as they were. */
  lemma ToggleRoundTrip(sel: set<string>, uri: string)
    requires uri !in sel
    ensures Toggle(Toggle(sel, uri, true), uri, false) == sel
  {
  }

  // ---------------------------------------------------------------------
  // Rows

  const TrashPrefix: string := "[TRASH] "

  /** The label `bind` shows: the name, prefixed with `[TRASH] ` for a trashed item. */
  function RowLabel(item: Item): (text: string)
    ensures EndsWith(text, item.name)
    ensures item.isTrashed <==> text == TrashPrefix + item.name
    ensures !item.isTrashed <==> text == item.name
  {
    assert (TrashPrefix + item.name)[|TrashPrefix + item.name| - |item.name|..] == item.name;
    (if item.isTrashed then TrashPrefix else "") + item.name
  }

  /** `DIFF.areItemsTheSame`: the same URI. */
  function AreItemsTheSame(oldItem: Item, newItem: Item): (same: bool)
    ensures same <==> oldItem.uri == newItem.uri
  {
    oldItem.uri == newItem.uri
  }

  /** `DIFF.areContentsTheSame`: structural equality of the data class. */
  function AreContentsTheSame(oldItem: Item, newItem: Item): (same: bool)
    ensures same <==> oldItem == newItem
  {
    oldItem == newItem
  }

  /**
   * The two callbacks are what list diffing relies on: both are
   * equivalences (reflexive, symmetric, transitive), equal contents imply
   * the same item, and two items with one URI differ in content only through
   * their other fields.
   */
  lemma DiffConsistent(a: Item, b: Item, c: Item)
    ensures AreItemsTheSame(a, a) && AreContentsTheSame(a, a)
    ensures AreItemsTheSame(a, b) == AreItemsTheSame(b, a)
    ensures AreContentsTheSame(a, b) == AreContentsTheSame(b, a)
    ensures AreItemsTheSame(a, b) && AreItemsTheSame(b, c) ==> AreItemsTheSame(a, c)
    ensures AreContentsTheSame(a, b) && AreContentsTheSame(b, c) ==> AreContentsTheSame(a, c)
    ensures AreContentsTheSame(a, b) ==> AreItemsTheSame(a, b)
    ensures AreItemsTheSame(a, b) && !AreContentsTheSame(a, b) ==>
      a.name != b.name || a.mime != b.mime || a.size != b.size || a.volumeId != b.volumeId
      || a.kind != b.kind || a.isTrashed != b.isTrashed
  {
  }

  /** What one bound row shows. */
  datatype RowView = RowView(text: string, checked: bool)

  // ---------------------------------------------------------------------
  // The adapter

  class MediaAdapter {
    /** `currentList` of the list adapter. */
    var currentList: seq<Item>
    /** `selected`: the URI strings of the selected items. */
    var selected: set<string>

    constructor ()
      ensures currentList == [] && selected == {}
    {
      currentList, selected := [], {};
    }

    /** `submitList` (inherited): replaces the list; the selection is kept. */
    method SubmitList(list: seq<Item>)
      modifies this
      ensures currentList == list && selected == old(selected)
    {
      currentList := list;
    }

    /** `bind`: the row's label and checkbox state. */
    function Bind(item: Item): (v: RowView)
      reads this
      ensures v.text == RowLabel(item)
      ensures v.checked <==> item.uri in selected
    {
      RowView(RowLabel(item), item.uri in selected)
    }

    /**
     * Rows that diffing treats as the same item show the same checkbox
     * state, because the selection is keyed by the URI as well.
     */
    lemma SameItemBindsAlike(a: Item, b: Item)
      requires AreItemsTheSame(a, b)
      ensures Bind(a).checked == Bind(b).checked
    {
    }

    /** The checkbox listener installed by `bind` for `item`. */
    method OnCheckedChanged(item: Item, isChecked: bool)
      modifies this
      ensures selected == Toggle(old(selected), item.uri, isChecked)
      ensures currentList == old(currentList)
    {
      if isChecked {
        selected := selected + {item.uri};
      } else {
        selected := selected - {item.uri};
      }
    }

    /** A click on the row flips its checkbox, which fires the listener. */
    method OnRowClicked(item: Item)
      modifies this
      ensures selected == Toggle(old(selected), item.uri, item.uri !in old(selected))
      ensures currentList == old(currentList)
    {
      var checked := Bind(item).checked;
      OnCheckedChanged(item, !checked);
    }

    /** `clearSelection`. */
    method ClearSelection()
      modifies this
      ensures selected == {} && currentList == old(currentList)
    {
      selected := {};
    }

    /** `setAllSelected(select)`. */
    method SetAllSelected(select: bool)
      modifies this
      ensures select ==> selected == old(selected) + UriSet(currentList)
      ensures !select ==> selected == {}
      ensures currentList == old(currentList)
    {
      if !select {
        selected := {};
        return;
      }
      var i := 0;
      while i < |currentList|
        invariant 0 <= i <= |currentList|
        invariant selected == old(selected) + UriSet(currentList[..i])
        invariant currentList == old(currentList)
      {
        assert UriSet(currentList[..i + 1]) == UriSet(currentList[..i]) + {currentList[i].uri} by {
          var p := currentList[..i + 1];
          forall u | u in UriSet(p) ensures u in UriSet(currentList[..i]) + {currentList[i].uri} {
            var j :| 0 <= j < |p| && p[j].uri == u;
            if j < i { assert currentList[..i][j] == p[j]; }
          }
          forall u | u in UriSet(currentList[..i]) ensures u in UriSet(p) {
            var j :| 0 <= j < i && currentList[..i][j].uri == u;
            assert p[j].uri == u;
          }
          assert p[i].uri == currentList[i].uri;
        }
        selected := selected + {currentList[i].uri};
        i := i + 1;
      }
      assert currentList[..i] == currentList;
    }

    /** `isAllSelected()`. */
    predicate IsAllSelected()
      reads this
    {
      AllSelected(currentList, selected)
    }

    /** `selectedItems()`. */
    function SelectedItems(): seq<Item>
      reads this
    {
      SelectedOf(currentList, selected)
    }
  }

  // ---------------------------------------------------------------------
  // calcSample

  /** The test of `calcSample`'s loop for the sample size `s`. */
  predicate HalvesReachRequest(w: int, h: int, reqW: int, reqH: int, s: int)
    requires s > 0
  {
    TDiv(TDiv(w, 2), s) >= reqW && TDiv(TDiv(h, 2), s) >= reqH
  }

  /**
   * `calcSample(w, h, reqW, reqH)`: the smallest power of two at which the
   * halved dimensions, divided by it, no longer both reach the request. The
   * doubling never leaves the 32-bit range.
   */
  method CalcSample(w: Int32, h: Int32, reqW: Int32, reqH: Int32) returns (inSample: Int32, ghost k: nat)
    requires reqW > 0 || reqH > 0
    ensures inSample == Pow2(k)
    ensures !HalvesReachRequest(w, h, reqW, reqH, inSample)
    ensures forall j :: 0 <= j < k ==> HalvesReachRequest(w, h, reqW, reqH, Pow2(j))
    ensures TDiv(w, 2) < reqW || TDiv(h, 2) < reqH ==> inSample == 1
  {
    inSample, k := 1, 0;
    var halfW := TDiv(w, 2);
    var halfH := TDiv(h, 2);
    while TDiv(halfW, inSample) >= reqW && TDiv(halfH, inSample) >= reqH
      invariant inSample == Pow2(k)
      invariant forall j :: 0 <= j < k ==> HalvesReachRequest(w, h, reqW, reqH, Pow2(j))
      invariant k > 0 ==> HalvesReachRequest(w, h, reqW, reqH, 1)
      decreases 0x8000_0000 - inSample
    {
      if reqW > 0 {
        QuotientBound(halfW, inSample, 1);
      } else {
        QuotientBound(halfH, inSample, 1);
      }
      inSample := inSample * 2;
      k := k + 1;
    }
  }

  /**
   * With positive requests, once the loop test fails it fails for every
   * larger power of two: the result is the threshold between the sizes the
   * loop passes and those it stops at.
   */
  lemma {:induction false} CalcSampleStopsForGood(w: int, h: int, reqW: int, reqH: int, k: nat, m: nat)
    requires reqW > 0 && reqH > 0 && k <= m
    requires !HalvesReachRequest(w, h, reqW, reqH, Pow2(k))
    ensures !HalvesReachRequest(w, h, reqW, reqH, Pow2(m))
    decreases m - k
  {
    if k < m {
      TDivDoubling(TDiv(w, 2), Pow2(k));
      TDivDoubling(TDiv(h, 2), Pow2(k));
      CalcSampleStopsForGood(w, h, reqW, reqH, k + 1, m);
    }
  }
}
