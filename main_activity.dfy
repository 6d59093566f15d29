/**
 * The non-UI logic of the main screen: the list's check states (the
 * `SparseBooleanArray` of `checkedItemPositions`), the select-all toggle,
 * `firstCheckedIndex` and `checkedIndices`, the pending-copy handshake with
 * the destination picker and its success counter, `setItems`, and the
 * sample-size loop of the list adapter's `loadThumb`.
 */
module MainActivityModel {
  import opened Common
  import opened Engine

  // ---------------------------------------------------------------------
  // Check states

  /**
   * A sparse boolean array: (position, checked) pairs in increasing key
   * order. `setItemChecked(i, false)` stores a `false` entry rather than
   * removing the key, so both values occur.
   */
  type Checks = seq<(int, bool)>

  ghost predicate SortedKeys(c: Checks) {
    forall i, j :: 0 <= i < j < |c| ==> c[i].0 < c[j].0
  }

  ghost predicate Increasing(s: seq<int>) {
    forall i, j :: 0 <= i < j < |s| ==> s[i] < s[j]
  }

  /** `isItemChecked(k)`: the stored value, `false` for a key never stored. */
  function Get(c: Checks, k: int): bool {
    if c == [] then false
    else if c[0].0 == k then c[0].1
    else Get(c[1..], k)
  }

  /** `put(k, v)`: replaces the value of key `k`, or inserts it in key order. */
  function Put(c: Checks, k: int, v: bool): Checks {
    if c == [] then [(k, v)]
    else if c[0].0 == k then [(k, v)] + c[1..]
    else if k < c[0].0 then [(k, v)] + c
    else [c[0]] + Put(c[1..], k, v)
  }

  lemma {:induction false} PutLowerBound(c: Checks, k: int, v: bool, lo: int)
    requires forall i :: 0 <= i < |c| ==> c[i].0 > lo
    requires k > lo
    ensures forall i :: 0 <= i < |Put(c, k, v)| ==> Put(c, k, v)[i].0 > lo
  {
    if c != [] && c[0].0 != k && k >= c[0].0 {
      PutLowerBound(c[1..], k, v, lo);
    }
  }

  /**
   * `put` keeps the keys ordered, stores the value under its key and
   * leaves every other key's value alone.
   */
  lemma {:induction false} PutSpec(c: Checks, k: int, v: bool)
    requires SortedKeys(c)
    ensures SortedKeys(Put(c, k, v))
    ensures Get(Put(c, k, v), k) == v
    ensures forall k' :: k' != k ==> Get(Put(c, k, v), k') == Get(c, k')
  {
    if c != [] && c[0].0 != k && k >= c[0].0 {
      var rest := c[1..];
      PutSpec(rest, k, v);
      PutLowerBound(rest, k, v, c[0].0);
      var p := Put(c, k, v);
      assert p == [c[0]] + Put(rest, k, v);
      forall i, j | 0 <= i < j < |p| ensures p[i].0 < p[j].0 {
        if i > 0 {
          assert p[i] == Put(rest, k, v)[i - 1] && p[j] == Put(rest, k, v)[j - 1];
        } else {
          assert p[j] == Put(rest, k, v)[j - 1];
        }
      }
    }
  }

  /** The stored value of a key is what its entry holds. */
  lemma {:induction false} GetSpec(c: Checks, k: int)
    requires SortedKeys(c)
    ensures Get(c, k) <==> exists i :: 0 <= i < |c| && c[i] == (k, true)
  {
    if c != [] {
      GetSpec(c[1..], k);
      if c[0].0 == k {
        forall i | 1 <= i < |c| ensures c[i] != (k, true) {
          assert c[0].0 < c[i].0;
        }
      }
      if exists i :: 0 <= i < |c| && c[i] == (k, true) {
        var i :| 0 <= i < |c| && c[i] == (k, true);
        if i > 0 && c[0].0 != k {
          assert c[1..][i - 1] == (k, true);
        }
      }
      if exists i :: 0 <= i < |c[1..]| && c[1..][i] == (k, true) {
        var i :| 0 <= i < |c[1..]| && c[1..][i] == (k, true);
        assert c[i + 1] == (k, true);
      }
    }
  }

  /** The check states after `setItemChecked(i, v)` for every `i` below `n`, in order. */
  function SetRange(c: Checks, n: nat, v: bool): Checks {
    if n == 0 then c else Put(SetRange(c, n - 1, v), n - 1, v)
  }

  /** Setting the first `n` positions stores `v` there and nothing elsewhere. */
  lemma {:induction false} SetRangeSpec(c: Checks, n: nat, v: bool)
    requires SortedKeys(c)
    ensures SortedKeys(SetRange(c, n, v))
    ensures forall k :: Get(SetRange(c, n, v), k) == if 0 <= k < n then v else Get(c, k)
  {
    if n > 0 {
      SetRangeSpec(c, n - 1, v);
      PutSpec(SetRange(c, n - 1, v), n - 1, v);
    }
  }

  /** `(0 until total).any { !isItemChecked(it) }`. */
  predicate AnyUnchecked(c: Checks, total: nat) {
    exists i | 0 <= i < total :: !Get(c, i)
  }

  /**
   * Pressing select-all twice on a non-empty list: the second press undoes
   * the first when it checked everything, and vice versa.
   */
  lemma SelectAllTwice(c: Checks, total: nat)
    requires SortedKeys(c) && total > 0
    ensures var once := SetRange(c, total, AnyUnchecked(c, total));
      AnyUnchecked(once, total) == !AnyUnchecked(c, total)
  {
    var v := AnyUnchecked(c, total);
    SetRangeSpec(c, total, v);
    var once := SetRange(c, total, v);
    assert Get(once, 0) == v;
  }

  /** The checked keys in key order. */
  function CheckedKeys(c: Checks): seq<int> {
    if c == [] then []
    else CheckedKeys(c[..|c| - 1]) + (if c[|c| - 1].1 then [c[|c| - 1].0] else [])
  }

  /** `CheckedKeys` holds exactly the keys of the checked entries. */
  lemma {:induction false} CheckedKeysMembers(c: Checks)
    ensures forall x :: x in CheckedKeys(c) <==> exists i :: 0 <= i < |c| && c[i] == (x, true)
  {
    if c != [] {
      var init := c[..|c| - 1];
      CheckedKeysMembers(init);
      var a := CheckedKeys(init);
      forall x | (exists i :: 0 <= i < |c| && c[i] == (x, true)) ensures x in CheckedKeys(c) {
        var i :| 0 <= i < |c| && c[i] == (x, true);
        if i < |init| {
          assert init[i] == (x, true);
        }
      }
      forall x | x in a ensures exists i :: 0 <= i < |c| && c[i] == (x, true) {
        var i :| 0 <= i < |init| && init[i] == (x, true);
        assert c[i] == (x, true);
      }
    }
  }

  /** Over sorted checks, `CheckedKeys` comes out in increasing order. */
  lemma {:induction false} CheckedKeysIncreasing(c: Checks)
    requires SortedKeys(c)
    ensures Increasing(CheckedKeys(c))
  {
    if c != [] {
      var init := c[..|c| - 1];
      var last := c[|c| - 1];
      CheckedKeysIncreasing(init);
      CheckedKeysMembers(init);
      var a := CheckedKeys(init);
      if last.1 {
        var r := a + [last.0];
        assert CheckedKeys(c) == r;
        forall p, q | 0 <= p < q < |r| ensures r[p] < r[q] {
          if q == |r| - 1 {
            assert r[p] == a[p] && a[p] in a;
            var i :| 0 <= i < |init| && init[i] == (a[p], true);
            assert c[i].0 == a[p];
          }
        }
      }
    }
  }

  /**
   * `CheckedKeys` holds exactly the keys of the checked entries, in
   * increasing order, and is empty exactly when no entry is checked.
   */
  lemma CheckedKeysSpec(c: Checks)
    requires SortedKeys(c)
    ensures forall x :: x in CheckedKeys(c) <==> exists i :: 0 <= i < |c| && c[i] == (x, true)
    ensures Increasing(CheckedKeys(c))
    ensures CheckedKeys(c) == [] <==> forall i :: 0 <= i < |c| ==> !c[i].1
  {
    CheckedKeysMembers(c);
    CheckedKeysIncreasing(c);
    if CheckedKeys(c) != [] {
      assert CheckedKeys(c)[0] in CheckedKeys(c);
    }
  }

  /**
   * The first checked entry in key order holds the least checked position,
   * and it heads `CheckedKeys`.
   */
  lemma FirstCheckedIsLeast(c: Checks, i: nat)
    requires SortedKeys(c) && i < |c| && c[i].1
    requires forall j :: 0 <= j < i ==> !c[j].1
    ensures Get(c, c[i].0)
    ensures forall k :: k < c[i].0 ==> !Get(c, k)
    ensures CheckedKeys(c) != [] && CheckedKeys(c)[0] == c[i].0
  {
    GetSpec(c, c[i].0);
    forall m | 0 <= m < |c| && c[m].1 ensures c[i].0 <= c[m].0 {
      if m > i {
        assert c[i].0 < c[m].0;
      }
    }
    forall k | k < c[i].0 ensures !Get(c, k) {
      GetSpec(c, k);
    }
    CheckedKeysSpec(c);
    var ck := CheckedKeys(c);
    assert c[i].0 in ck;
    var p :| 0 <= p < |ck| && ck[p] == c[i].0;
    assert ck[0] <= ck[p];
    assert ck[0] in ck;
  }

  // ---------------------------------------------------------------------
  // The activity

  /** The status line. */
  datatype Status = Idle | Found(count: nat) | Copied(ok: nat, total: nat)

  /** The toasts the modelled handlers show. */
  datatype Notice = SelectItems | CopyError

  /** How many of the first `n` copies returned a handle. */
  function Successes(copied: nat -> bool, n: nat): (ok: nat)
    ensures ok <= n
    ensures ok == n <==> forall j :: 0 <= j < n ==> copied(j)
    ensures ok == 0 <==> forall j :: 0 <= j < n ==> !copied(j)
  {
    if n == 0 then 0 else Successes(copied, n - 1) + (if copied(n - 1) then 1 else 0)
  }

  /** Whether some pending index does not name an item of the list. */
  predicate HasStaleIndex(idx: seq<int>, count: nat) {
    exists j | 0 <= j < |idx| :: !(0 <= idx[j] < count)
  }

  class MainActivity {
    var items: seq<Item>
    var checks: Checks
    var pendingCopyIndices: Option<seq<int>>
    var status: Status
    var notices: seq<Notice>

    ghost predicate Valid()
      reads this
    {
      SortedKeys(checks)
    }

    constructor ()
      ensures Valid()
      ensures items == [] && checks == [] && pendingCopyIndices == None && status == Idle && notices == []
    {
      items, checks, pendingCopyIndices, status, notices := [], [], None, Idle, [];
    }

    /** `setItems(list)`: the list is replaced; the check states are kept. */
    method SetItems(list: seq<Item>)
      modifies this
      ensures items == list && status == Found(|list|)
      ensures checks == old(checks) && pendingCopyIndices == old(pendingCopyIndices)
      ensures notices == old(notices)
    {
      items := [];
      items := items + list;
      status := Found(|list|);
    }

    /** The select-all button: checks every row if any is unchecked, else unchecks every row. */
    method ToggleSelectAll()
      requires Valid()
      modifies this
      ensures Valid()
      ensures items == old(items) && pendingCopyIndices == old(pendingCopyIndices)
      ensures status == old(status) && notices == old(notices)
      ensures |items| == 0 ==> checks == old(checks)
      ensures |items| > 0 ==> checks == SetRange(old(checks), |items|, AnyUnchecked(old(checks), |items|))
    {
      var total := |items|;
      if total == 0 {
        return;
      }
      var anyUnchecked := AnyUnchecked(checks, total);
      var i := 0;
      while i < total
        invariant 0 <= i <= total
        invariant checks == SetRange(old(checks), i, anyUnchecked)
        invariant SortedKeys(checks)
        invariant items == old(items) && pendingCopyIndices == old(pendingCopyIndices)
        invariant status == old(status) && notices == old(notices)
      {
        PutSpec(checks, i, anyUnchecked);
        checks := Put(checks, i, anyUnchecked);
        i := i + 1;
      }
    }

    /** `firstCheckedIndex()`: the least checked position, or `None`. */
    method FirstCheckedIndex() returns (r: Option<int>)
      requires Valid()
      ensures r.None? <==> forall i :: 0 <= i < |checks| ==> !checks[i].1
      ensures r.Some? ==> Get(checks, r.value) && forall k :: k < r.value ==> !Get(checks, k)
      ensures r.Some? ==> CheckedKeys(checks) != [] && r.value == CheckedKeys(checks)[0]
    {
      var i := 0;
      while i < |checks|
        invariant 0 <= i <= |checks|
        invariant forall j :: 0 <= j < i ==> !checks[j].1
      {
        if checks[i].1 {
          FirstCheckedIsLeast(checks, i);
          return Some(checks[i].0);
        }
        i := i + 1;
      }
      return None;
    }

    /** `checkedIndices()`: the checked positions in key order, or `None` when there are none. */
    method CheckedIndices() returns (r: Option<seq<int>>)
      requires Valid()
      ensures r.None? <==> forall i :: 0 <= i < |checks| ==> !checks[i].1
      ensures r.Some? ==> r.value == CheckedKeys(checks) && r.value != []
    {
      var out: seq<int> := [];
      var i := 0;
      while i < |checks|
        invariant 0 <= i <= |checks|
        invariant out == CheckedKeys(checks[..i])
      {
        assert checks[..i + 1][..i] == checks[..i];
        if checks[i].1 {
          out := out + [checks[i].0];
        }
        i := i + 1;
      }
      assert checks[..i] == checks;
      CheckedKeysSpec(checks);
      if out == [] {
        return None;
      }
      return Some(out);
    }

    /** The copy button: remembers the checked positions, or asks for a selection. */
    method OnCopyClicked()
      requires Valid()
      modifies this
      ensures Valid()
      ensures items == old(items) && checks == old(checks) && status == old(status)
      ensures CheckedKeys(checks) == [] ==>
        pendingCopyIndices == old(pendingCopyIndices) && notices == old(notices) + [SelectItems]
      ensures CheckedKeys(checks) != [] ==>
        pendingCopyIndices == Some(CheckedKeys(checks)) && notices == old(notices)
    {
      CheckedKeysSpec(checks);
      var idx := CheckedIndices();
      if idx.None? {
        notices := notices + [SelectItems];
        return;
      }
      pendingCopyIndices := idx;
    }

    /**
     * The destination picker's callback. `dest` is the picked tree (`None`
     * when cancelled) and `copied(j)` whether the copy of the `j`-th pending
     * item returned a handle. A position that no longer names an item makes
     * `items[i]` throw, which is caught and shown as a toast.
     */
    method OnDestPicked(dest: Option<string>, copied: nat -> bool)
      modifies this
      ensures pendingCopyIndices == None
      ensures items == old(items) && checks == old(checks)
      ensures dest.None? || old(pendingCopyIndices).None? ==>
        status == old(status) && notices == old(notices)
      ensures dest.Some? && old(pendingCopyIndices).Some? ==>
        var idx := old(pendingCopyIndices).value;
        if HasStaleIndex(idx, |items|) then
          status == old(status) && notices == old(notices) + [CopyError]
        else
          status == Copied(Successes(copied, |idx|), |idx|) && notices == old(notices)
    {
      var idx := pendingCopyIndices;
      pendingCopyIndices := None;
      if dest.None? || idx.None? {
        return;
      }
      var ok := 0;
      var j := 0;
      while j < |idx.value|
        invariant 0 <= j <= |idx.value|
        invariant ok == Successes(copied, j)
        invariant forall m :: 0 <= m < j ==> 0 <= idx.value[m] < |items|
        invariant items == old(items) && checks == old(checks) && pendingCopyIndices == None
        invariant status == old(status) && notices == old(notices)
      {
        var i := idx.value[j];
        if !(0 <= i < |items|) {
          notices := notices + [CopyError];
          return;
        }
        if copied(j) {
          ok := ok + 1;
        }
        j := j + 1;
      }
      status := Copied(ok, |idx.value|);
    }
  }

  // ---------------------------------------------------------------------
  // loadThumb

  /** Whether `loadThumb`'s loop stops at sample size `s`: both quotients within `size`. */
  predicate WithinThumb(w: int, h: int, size: int, s: int)
    requires s > 0
  {
    TDiv(w, s) <= size && TDiv(h, s) <= size
  }

  /**
   * `loadThumb`'s sample loop: the smallest power of two at which both
   * dimensions, divided by it, are within `size`. It always terminates, and
   * the doubling stays within 32 bits.
   */
  method ThumbSample(w: Int32, h: Int32, size: Int32) returns (sample: Int32, ghost k: nat)
    requires size > 0
    ensures sample == Pow2(k)
    ensures WithinThumb(w, h, size, sample)
    ensures forall j :: 0 <= j < k ==> !WithinThumb(w, h, size, Pow2(j))
  {
    sample, k := 1, 0;
    while TDiv(w, sample) > size || TDiv(h, sample) > size
      invariant sample == Pow2(k)
      invariant forall j :: 0 <= j < k ==> !WithinThumb(w, h, size, Pow2(j))
      decreases 0x8000_0000 - sample
    {
      if TDiv(w, sample) > size {
        QuotientBound(w, sample, 2);
      } else {
        QuotientBound(h, sample, 2);
      }
      sample := sample * 2;
      k := k + 1;
    }
  }

  /**
   * Once both dimensions fit at one power of two they fit at every larger
   * one, so the loop's first stop is the threshold.
   */
  lemma {:induction false} ThumbStaysWithin(w: int, h: int, size: int, k: nat, m: nat)
    requires size > 0 && k <= m
    requires WithinThumb(w, h, size, Pow2(k))
    ensures WithinThumb(w, h, size, Pow2(m))
    decreases m - k
  {
    if k < m {
      TDivDoubling(w, Pow2(k));
      TDivDoubling(h, Pow2(k));
      ThumbStaysWithin(w, h, size, k + 1, m);
    }
  }
}
