/**
 * The `PrintString` custom element (index.js lines 1-156): the state it keeps, the
 * handlers that update it, and the container's child blocks it keeps in step with
 * the cached text. The container is a sequence of blocks; the shadow DOM is not part
 * of this model.
 */
module PrintStringElement {
  import opened JsStrings
  import opened Outcomes
  import opened BlockList
  import Transformer
  import ColorCoder
  import SequenceDiffer

  /** One child `div` of the container: the code unit it shows and its background colour (the hex digits after `#`). */
  datatype Block = Block(symbol: CodeUnit, color: string)

  /** The block `addBlock` and `replaceBlock` make for a code unit. */
  function Paint(c: CodeUnit): Block {
    Block(c, ColorCoder.ColorOf(c))
  }

  /** The blocks that show the text `s`: one per code unit, in order, each in its own colour. */
  function Painted(s: JsString): (r: seq<Block>)
    ensures |r| == |s|
  {
    seq(|s|, k requires 0 <= k < |s| => Paint(s[k]))
  }

  /** The blocks determine the text they show. */
  lemma PaintedInjective(s: JsString, t: JsString)
    requires Painted(s) == Painted(t)
    ensures s == t
  {
    assert forall k :: 0 <= k < |s| ==> Painted(s)[k].symbol == s[k] && Painted(t)[k].symbol == t[k];
  }

  /** Painting works piece by piece. */
  lemma PaintedConcat(x: JsString, y: JsString)
    ensures Painted(x + y) == Painted(x) + Painted(y)
  {
    assert forall k :: 0 <= k < |x| ==> (x + y)[k] == x[k];
    assert forall k :: |x| <= k < |x| + |y| ==> (x + y)[k] == y[k - |x|];
  }

  /** Painting commutes with taking a prefix or a suffix. */
  lemma PaintedSlices(s: JsString, index: nat)
    requires index <= |s|
    ensures Painted(s[..index]) == Painted(s)[..index]
    ensures Painted(s[index..]) == Painted(s)[index..]
  {
  }

  /** Painting commutes with the insertion `addBlock` makes. */
  lemma PaintedInsert(s: JsString, index: nat, x: CodeUnit)
    ensures Painted(InsertBlock(s, index, x)) == InsertBlock(Painted(s), index, Paint(x))
  {
    assert Painted([x]) == [Paint(x)];
    if index == 0 || index >= |s| {
      PaintedConcat(s, [x]);
    } else {
      PaintedSlices(s, index);
      PaintedConcat(s[..index], [x]);
      PaintedConcat(s[..index] + [x], s[index..]);
    }
  }

  /** Painting commutes with the removal `delBlock` makes. */
  lemma PaintedRemove(s: JsString, index: nat)
    requires index < |s|
    ensures Painted(RemoveBlock(s, index)) == RemoveBlock(Painted(s), index)
  {
  }

  /** Painting commutes with the replacement `replaceBlock` makes. */
  lemma PaintedReplace(s: JsString, index: nat, x: CodeUnit)
    requires index < |s|
    ensures Painted(s[index := x]) == Painted(s)[index := Paint(x)]
  {
  }

  /** The values of the `order` attribute that `getValue` knows (index.js lines 53-60). */
  predicate KnownOrder(order: Option<string>) {
    order == Some("direct") || order == Some("reverse") || order == Some("random")
  }

  /**
   * `t` is what `getValue` may make of the normalised text `f` under `order`: `f`
   * itself, `f` reversed, or any rearrangement of `f`.
   */
  predicate Reordered(order: Option<string>, f: JsString, t: JsString) {
    (order == Some("direct") && t == f) ||
    (order == Some("reverse") && t == Transformer.ReverseString(f)) ||
    (order == Some("random") && |t| == |f| && multiset(t) == multiset(f))
  }

  /** Every known order reorders a text of one code unit into itself. */
  lemma ReorderedSingle(order: Option<string>, f: JsString, t: JsString)
    requires |f| == 1 && Reordered(order, f, t)
    ensures t == f
  {
    if order == Some("random") {
      assert t[0] in multiset(t);
      assert multiset(f) == multiset{f[0]};
    }
  }

  /**
   * How `getValue(text)` ends, given the order and the cached text: a `null` text
   * throws in `formatString`, an unknown order throws in the `switch`, and a change
   * from one code unit to another throws 'MinRda Error' in `levenshteinDistance`.
   */
  function GetValueStatus(order: Option<string>, text: Option<JsString>, cached: JsString): (st: Status)
    ensures st == Completed ==> text.Some? && KnownOrder(order)
    ensures text.Some? && KnownOrder(order) && |cached| != 1 ==> st == Completed
    ensures st == Threw(MinRdaError) ==> text.Some? && |cached| == 1 && cached != Transformer.FormatString(text.value)
    ensures text.Some? && KnownOrder(order) && cached == Transformer.FormatString(text.value) ==> st == Completed
  {
    if text.None? then Threw(NullText)
    else if !KnownOrder(order) then Threw(UnrecognizedStateOrder)
    else
      var f := Transformer.FormatString(text.value);
      if |cached| == 1 && |f| == 1 && cached != f then Threw(MinRdaError) else Completed
  }

  /** The element, with the container's children as `blocks`. */
  class PrintString {
    /** `this.$container.children`. */
    var blocks: seq<Block>
    /** Whether the container carries the class `column`. */
    var column: bool
    var stateLayout: Option<string>
    var stateOrder: Option<string>
    var textOutputCached: JsString
    /** `this.getAttribute('text')`. */
    var textAttribute: Option<JsString>

    /** The blocks show the cached text. */
    ghost predicate Valid()
      reads this
    {
      blocks == Painted(textOutputCached)
    }

    /**
     * The constructor (index.js lines 2-12), on an element whose attributes read
     * `text`, `layout` and `order`, and whose template container starts with or
     * without the class `column`.
     */
    constructor(text: Option<JsString>, layout: Option<string>, order: Option<string>, columnAtStart: bool)
      ensures Valid()
      ensures blocks == [] && textOutputCached == []
      ensures stateLayout == layout && stateOrder == order && column == columnAtStart && textAttribute == text
    {
      blocks := [];
      column := columnAtStart;
      stateLayout := layout;
      stateOrder := order;
      textOutputCached := [];
      textAttribute := text;
    }

    /** `replaceBlock` (index.js lines 129-134): block `index` shows `simbol` in its colour. */
    method ReplaceBlock(simbol: CodeUnit, index: nat)
      requires index < |blocks|
      modifies this`blocks
      ensures blocks == old(blocks)[index := Paint(simbol)]
    {
      var color := ColorCoder.BlockColor(simbol);
      blocks := blocks[index := Block(simbol, color)];
    }

    /** `addBlock` (index.js lines 136-148): a new block for `simbol`, placed as `InsertBlock` says. */
    method AddBlock(simbol: CodeUnit, index: nat)
      modifies this`blocks
      ensures blocks == InsertBlock(old(blocks), index, Paint(simbol))
    {
      var color := ColorCoder.BlockColor(simbol);
      blocks := InsertBlock(blocks, index, Block(simbol, color));
    }

    /** `delBlock` (index.js lines 150-152): block `index` goes. */
    method DelBlock(index: nat)
      requires index < |blocks|
      modifies this`blocks
      ensures blocks == RemoveBlock(old(blocks), index)
    {
      blocks := RemoveBlock(blocks, index);
    }

    /** `removeAll` (index.js lines 154-156): the container is emptied. */
    method RemoveAll()
      modifies this`blocks
      ensures blocks == []
    {
      blocks := [];
    }

    /**
     * `render` (index.js lines 90-127), on blocks that show `oldValue`: it leaves them
     * showing `newValue`, except that a change between two texts of one code unit
     * each throws 'MinRda Error' before any block is touched.
     */
    method Render(oldValue: JsString, newValue: JsString) returns (st: Status)
      requires blocks == Painted(oldValue)
      modifies this`blocks
      ensures st == if oldValue != newValue && |oldValue| == 1 && |newValue| == 1 then Threw(MinRdaError) else Completed
      ensures st == Completed ==> blocks == Painted(newValue)
      ensures st != Completed ==> blocks == old(blocks)
    {
      if oldValue == newValue {
        return Completed;
      }
      if |newValue| == 0 {
        RemoveAll();
        return Completed;
      }
      if |oldValue| == 0 && |newValue| != 0 {
        AddEach(newValue);
        return Completed;
      }
      var diff := SequenceDiffer.LevenshteinDistance(newValue, oldValue);
      if diff.Err? {
        return Threw(diff.error);
      }
      ApplyEach(oldValue, diff.value, newValue);
      return Completed;
    }

    /**
     * The first `forEach` of `render` (index.js lines 103-105): on an empty container,
     * `addBlock(item, i)` for every code unit of `newValue`, in order.
     */
    method AddEach(newValue: JsString)
      requires blocks == []
      modifies this`blocks
      ensures blocks == Painted(newValue)
    {
      for i := 0 to |newValue|
        invariant blocks == Painted(newValue[..i])
      {
        PaintedInsert(newValue[..i], i, newValue[i]);
        assert newValue[..i + 1] == InsertBlock(newValue[..i], i, newValue[i]);
        AddBlock(newValue[i], i);
      }
      assert newValue[..|newValue|] == newValue;
    }

    /**
     * The second `forEach` of `render` (index.js lines 112-126): on blocks that show
     * `cur`, replay records that turn `cur` into `newValue`.
     */
    method ApplyEach(cur: JsString, ops: seq<SequenceDiffer.Op>, newValue: JsString)
      requires blocks == Painted(cur)
      requires SequenceDiffer.Apply(cur, ops, newValue) == Some(newValue)
      modifies this`blocks
      ensures blocks == Painted(newValue)
    {
      ghost var now := cur;
      for k := 0 to |ops|
        invariant blocks == Painted(now)
        invariant SequenceDiffer.Apply(now, ops[k..], newValue) == Some(newValue)
      {
        assert ops[k..][0] == ops[k] && ops[k..][1..] == ops[k + 1..];
        ApplyRecord(ops[k], newValue, now);
        now := SequenceDiffer.ApplyOp(now, ops[k], newValue).value;
      }
      assert ops[|ops|..] == [];
    }

    /**
     * The `switch` in the second `forEach` of `render` (index.js lines 113-125): one
     * record, applied to blocks that show `now`, where the record fits `now`.
     */
    method ApplyRecord(op: SequenceDiffer.Op, newValue: JsString, ghost now: JsString)
      requires blocks == Painted(now)
      requires SequenceDiffer.ApplyOp(now, op, newValue).Some?
      modifies this`blocks
      ensures blocks == Painted(SequenceDiffer.ApplyOp(now, op, newValue).value)
    {
      ghost var next := SequenceDiffer.ApplyOp(now, op, newValue).value;
      match op {
        case Replace(src, dest) =>
          assert next == now[src - 1 := newValue[dest - 1]];
          PaintedReplace(now, src - 1, newValue[dest - 1]);
          ReplaceBlock(newValue[dest - 1], src - 1);
        case Add(src, dest) =>
          assert next == InsertBlock(now, src, newValue[dest - 1]);
          PaintedInsert(now, src, newValue[dest - 1]);
          AddBlock(newValue[dest - 1], src);
        case Delete(src) =>
          assert next == RemoveBlock(now, src - 1);
          PaintedRemove(now, src - 1);
          DelBlock(src - 1);
      }
    }

    /**
     * `getValue` (index.js lines 49-67): normalise the text, reorder it as
     * `stateOrder` says, render the change from the cached text and cache the result.
     * A throw leaves the cache and the blocks as they were.
     */
    method GetValue(newVal: Option<JsString>) returns (st: Status)
      requires Valid()
      modifies this`blocks, this`textOutputCached
      ensures Valid()
      ensures st == GetValueStatus(stateOrder, newVal, old(textOutputCached))
      ensures st == Completed ==> Reordered(stateOrder, Transformer.FormatString(newVal.value), textOutputCached)
      ensures st != Completed ==> textOutputCached == old(textOutputCached) && blocks == old(blocks)
    {
      if newVal.None? {
        return Threw(NullText);
      }
      var f := Transformer.FormatString(newVal.value);
      var textInputCurrent := f;
      if stateOrder == Some("direct") {
      } else if stateOrder == Some("reverse") {
        textInputCurrent := Transformer.ReverseString(f);
      } else if stateOrder == Some("random") {
        textInputCurrent := Transformer.ShuffleString(f);
      } else {
        return Threw(UnrecognizedStateOrder);
      }
      assert Reordered(stateOrder, f, textInputCurrent);
      if |f| == 1 {
        ReorderedSingle(stateOrder, f, textInputCurrent);
      }
      st := Render(textOutputCached, textInputCurrent);
      if st != Completed {
        return;
      }
      textOutputCached := textInputCurrent;
    }

    /** `handleLayout` (index.js lines 32-38): a new value is stored and flips the `column` class. */
    method HandleLayout(newVal: Option<string>)
      modifies this`stateLayout, this`column
      ensures stateLayout == newVal
      ensures column == if newVal == old(stateLayout) then old(column) else !old(column)
    {
      if newVal == stateLayout {
        return;
      }
      stateLayout := newVal;
      column := !column;
    }

    /**
     * `handleOrder` (index.js lines 40-47): a new value is stored, even when the
     * re-run of `getValue` on the text attribute then throws.
     */
    method HandleOrder(newVal: Option<string>) returns (st: Status)
      requires Valid()
      modifies this`stateOrder, this`blocks, this`textOutputCached
      ensures Valid()
      ensures stateOrder == newVal
      ensures newVal == old(stateOrder) ==> st == Completed && textOutputCached == old(textOutputCached) && blocks == old(blocks)
      ensures newVal != old(stateOrder) ==> st == GetValueStatus(newVal, textAttribute, old(textOutputCached))
      ensures newVal != old(stateOrder) && st == Completed ==>
        Reordered(newVal, Transformer.FormatString(textAttribute.value), textOutputCached)
      ensures st != Completed ==> textOutputCached == old(textOutputCached) && blocks == old(blocks)
    {
      if newVal == stateOrder {
        return Completed;
      }
      stateOrder := newVal;
      st := GetValue(textAttribute);
    }

    /** A change of the `text` attribute: `attributeChangedCallback` passes the new value to `getValue` (index.js lines 20-22). */
    method SetText(newVal: Option<JsString>) returns (st: Status)
      requires Valid()
      modifies this`textAttribute, this`blocks, this`textOutputCached
      ensures Valid()
      ensures textAttribute == newVal
      ensures st == GetValueStatus(stateOrder, newVal, old(textOutputCached))
      ensures st == Completed ==> Reordered(stateOrder, Transformer.FormatString(newVal.value), textOutputCached)
      ensures st != Completed ==> textOutputCached == old(textOutputCached) && blocks == old(blocks)
    {
      textAttribute := newVal;
      st := GetValue(newVal);
    }
  }
}
