/** The table of strings that the page code hands to the tree code.  The string after a string of
    length n starts n slots further on. */
module SlotTable {
  import opened MerkleSpec
  import opened Params

  type Slots = seq<Ptr<string>>

  function Total(datas: seq<string>): nat {
    if datas == [] then 0 else Total(datas[..|datas| - 1]) + |datas[|datas| - 1]|
  }

  /** Stepping by the length of the string just read, a reader that starts at slot 0 finds datas. */
  ghost predicate SlotsHold(slots: Slots, datas: seq<string>) {
    forall k :: 0 <= k < |datas| ==> SlotHolds(slots, datas, k)
  }

  ghost predicate SlotHolds(slots: Slots, datas: seq<string>, k: nat)
    requires k < |datas|
  {
    Total(datas[..k]) < |slots| && slots[Total(datas[..k])] == To(datas[k])
  }

  /** Each of the strings fits into the memory of a leaf. */
  predicate FitLeaves(datas: seq<string>) {
    forall k :: 0 <= k < |datas| ==> Fits(datas[k])
  }

  predicate Fits(data: string) {
    |data| < 8 * 2 * PAGE_LENGTH
  }

  lemma NoText(datas: seq<string>)
    ensures Total(datas[..0]) == 0
  {
  }

  lemma TotalStep(datas: seq<string>, k: nat)
    requires k < |datas|
    ensures Total(datas[..k + 1]) == Total(datas[..k]) + |datas[k]|
  {
    assert datas[..k + 1][..k] == datas[..k];
  }

  /** A reader that wants `count` strings finds datas, and then a NULL if these are too few. */
  ghost predicate ReadsUntil(slots: Slots, datas: seq<string>, count: nat) {
    && |datas| <= count && SlotsHold(slots, datas)
    && (|datas| < count ==> Total(datas) < |slots| && slots[Total(datas)] == Null)
  }

  lemma ReadsAtMost(slots: Slots, datas: seq<string>, count: nat)
    requires ReadsUntil(slots, datas, count)
    ensures |datas| <= count && Total(datas[..0]) == 0
  {
  }

  lemma NextSlot(slots: Slots, datas: seq<string>, count: nat, k: nat)
    requires ReadsUntil(slots, datas, count) && k <= |datas| && k < count
    ensures Total(datas[..k]) < |slots|
    ensures slots[Total(datas[..k])] == if k < |datas| then To(datas[k]) else Null
    ensures k < |datas| ==> Total(datas[..k + 1]) == Total(datas[..k]) + |datas[k]|
  {
    if k < |datas| {
      TotalStep(datas, k);
      assert SlotHolds(slots, datas, k);
    } else {
      assert datas[..k] == datas;
    }
  }
}
