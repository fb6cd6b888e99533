/**
 print and println over the two kinds of stream. A buffered stream takes the items directly; an unbuffered one takes a
 single item directly and everything else in one write from the temporary buffer.
 */
module Printing {
  import opened OutputBuffer
  import opened BufferedOutput

  ghost predicate AllValid(items: seq<Item>)
  {
    forall i :: 0 <= i < |items| ==> items[i].Valid()
  }

  predicate AllPrintable(items: seq<Item>)
  {
    forall i :: 0 <= i < |items| ==> items[i].Printable()
  }

  /** No piece is longer than the static buffer. */
  predicate AllShort(items: seq<Item>)
  {
    forall i :: 0 <= i < |items| ==> |items[i].text| <= STATIC_SIZE
  }

  // ---- a buffered stream ----

  method PrintItems(out: Obuf, items: seq<Item>)
    requires out.Valid() && AllValid(items)
    modifies out, out.storage, out.handle
    ensures out.Valid() && (out.storage == old(out.storage) || fresh(out.storage))
    ensures out.Everything() == old(out.Everything()) + Texts(items)
  {
    var i := 0;
    assert items[..0] == [] && old(out.Everything()) + "" == old(out.Everything());
    while i != |items|
      invariant 0 <= i <= |items|
      invariant out.Valid() && (out.storage == old(out.storage) || fresh(out.storage))
      invariant out.Everything() == old(out.Everything()) + Texts(items[..i])
    {
      TextsAppend(items[..i], items[i]);
      assert items[..i + 1] == items[..i] + [items[i]];
      out.PrintControl(items[i]);
      i := i + 1;
    }
    assert items[..i] == items;
  }

  /** print on a buffered stream: always the direct branch. */
  method PrintDirect(out: Obuf, items: seq<Item>)
    requires out.Valid() && AllValid(items)
    modifies out, out.storage, out.handle
    ensures out.Valid() && (out.storage == old(out.storage) || fresh(out.storage))
    ensures out.Everything() == old(out.Everything()) + Texts(items)
  {
    PrintItems(out, items);
  }

  /**
   println on a buffered stream: direct for a single item with a reserve size and where every item is printable; ok is
   false where a copy into the temporary buffer overran.
   */
  method PrintlnDirect(out: Obuf, items: seq<Item>) returns (ok: bool)
    requires out.Valid() && AllValid(items)
    modifies out, out.storage, out.handle
    ensures out.Valid() && (out.storage == old(out.storage) || fresh(out.storage))
    ensures ok <==> || (|items| == 1 && items[0].Reserved?)
                    || (forall i :: 0 <= i < |items| ==> items[i].View? || items[i].printable)
                    || AfterLine(Shape(4096, 0), items).Some?
    ensures AllShort(items) ==> ok
    ensures out.Everything() == old(out.Everything()) + if ok then Texts(items) + "\n" else ""
  {
    ok := true;
    if |items| == 1 && items[0].Reserved? {
      SingleText(items);
      out.PrintControlFollowed(items[0], '\n');
    } else if AllPrintable(items) {
      PrintItems(out, items);
      out.Put('\n');
      Appended(old(out.Everything()), Texts(items), "\n");
    } else {
      var text := CollectedLine(items);
      ok := text.Some?;
      if ok {
        out.Write(text.value);
      } else {
        assert old(out.Everything()) + "" == old(out.Everything());
      }
    }
  }

  // ---- an unbuffered handle ----

  /** print on an unbuffered handle: a single item directly, anything else collected and written at once. */
  method PrintBuffered(out: Handle, items: seq<Item>) returns (ok: bool)
    requires AllValid(items)
    modifies out
    ensures ok <==> |items| == 1 || AfterItems(Shape(STATIC_SIZE, 0), items).Some?
    ensures AllShort(items) ==> ok
    ensures out.written == old(out.written) + if ok then Texts(items) else ""
  {
    ok := true;
    if |items| == 1 {
      SingleText(items);
      out.PrintControl(items[0]);
    } else {
      var text := Collected(items);
      ok := text.Some?;
      if ok {
        out.Write(text.value);
      } else {
        assert old(out.written) + "" == old(out.written);
      }
    }
  }

  /** println on an unbuffered handle: a single item with a reserve size takes its line feed along. */
  method PrintlnBuffered(out: Handle, items: seq<Item>) returns (ok: bool)
    requires AllValid(items)
    modifies out
    ensures ok <==> (|items| == 1 && items[0].Reserved?) || AfterLine(Shape(STATIC_SIZE, 0), items).Some?
    ensures AllShort(items) ==> ok
    ensures out.written == old(out.written) + if ok then Texts(items) + "\n" else ""
  {
    ok := true;
    if |items| == 1 && items[0].Reserved? {
      SingleText(items);
      out.Write(items[0].text + "\n");
    } else {
      var text := CollectedLine(items);
      ok := text.Some?;
      if ok {
        out.Write(text.value);
      } else {
        assert old(out.written) + "" == old(out.written);
      }
    }
  }

  // ---- agreement ----

  /**
   Direct and collected printing agree: a buffered stream, whatever its size, has delivered exactly the items' texts once
   it is closed, and so has an unbuffered handle unless a copy overran, which takes a piece longer than the static buffer.
   */
  method PrintAgrees(items: seq<Item>, size: nat) returns (direct: string, collected: string, ok: bool)
    requires 0 < size && AllValid(items)
    ensures direct == Texts(items) && (ok ==> collected == direct)
    ensures ok <==> |items| == 1 || AfterItems(Shape(STATIC_SIZE, 0), items).Some?
    ensures AllShort(items) ==> ok
  {
    var first := new Handle();
    var second := new Handle();
    var out := new Obuf(first, size);
    PrintDirect(out, items);
    out.Close();
    ok := PrintBuffered(second, items);
    assert "" + Texts(items) == Texts(items);
    direct, collected := first.written, second.written;
  }

  /** The same for println. With several items, one of them not printable, both streams go through the temporary buffer. */
  method PrintlnAgrees(items: seq<Item>, size: nat)
    returns (direct: string, collected: string, directOk: bool, collectedOk: bool)
    requires 0 < size && AllValid(items)
    ensures directOk ==> direct == Texts(items) + "\n"
    ensures collectedOk ==> directOk && collected == direct
    ensures directOk <==> || (|items| == 1 && items[0].Reserved?)
                          || (forall i :: 0 <= i < |items| ==> items[i].View? || items[i].printable)
                          || AfterLine(Shape(4096, 0), items).Some?
    ensures AllShort(items) ==> collectedOk
  {
    var first := new Handle();
    var second := new Handle();
    var out := new Obuf(first, size);
    directOk := PrintlnDirect(out, items);
    out.Close();
    collectedOk := PrintlnBuffered(second, items);
    direct, collected := first.written, second.written;
  }
}
