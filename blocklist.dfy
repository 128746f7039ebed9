/** The container's list of child blocks, as a sequence, and the DOM calls made on it. */
module BlockList {

  /**
   * `addBlock` placement (index.js lines 143-147): index 0 appends with `appendChild`;
   * any other index inserts before `children[index]`, and past the end of the list
   * that child is `undefined`, so `insertBefore` appends as well.
   */
  function InsertBlock<T>(s: seq<T>, index: nat, x: T): (r: seq<T>)
    ensures |r| == |s| + 1
    ensures r[if index == 0 || index >= |s| then |s| else index] == x
    ensures index == 0 || index >= |s| ==> r == s + [x]
    ensures 0 < index < |s| ==> r[..index] == s[..index] && r[index + 1..] == s[index..]
  {
    if index == 0 || index >= |s| then s + [x] else s[..index] + [x] + s[index..]
  }

  /** `removeChild(children[index])` (index.js line 151). */
  function RemoveBlock<T>(s: seq<T>, index: nat): (r: seq<T>)
    requires index < |s|
    ensures |r| == |s| - 1
    ensures forall k :: 0 <= k < index ==> r[k] == s[k]
    ensures forall k :: index <= k < |r| ==> r[k] == s[k + 1]
  {
    s[..index] + s[index + 1..]
  }
}
