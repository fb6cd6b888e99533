/** The growing temporary buffer, the printing paths over it, and their agreement with printing directly. */
module OutputBuffer {

  import opened Basics

  const STATIC_SIZE: nat := 4096

  // ---- capacities: what a run does to the storage, by lengths alone ----

  datatype Shape = Shape(capacity: nat, size: nat)

  /** `write` of n characters. None: the copy would run past the new storage, whose size ignores the held characters. */
  function AfterWrite(s: Shape, n: nat): Option<Shape>
    requires s.size <= s.capacity
  {
    if n <= s.capacity - s.size then Some(Shape(s.capacity, s.size + n))
    else
      var capacity := Max(2 * s.capacity, n);
      if s.size + n <= capacity then Some(Shape(capacity, s.size + n)) else None
  }

  /** A write has room exactly when the buffer is empty or everything fits in twice the capacity. */
  lemma WriteFitsIff(s: Shape, n: nat)
    requires s.size <= s.capacity
    ensures AfterWrite(s, n).Some? <==> s.size == 0 || s.size + n <= 2 * s.capacity
  {
  }

  function AfterPut(s: Shape): Shape
    requires s.size <= s.capacity
  {
    if s.size == s.capacity then Shape(2 * s.capacity, s.size + 1) else Shape(s.capacity, s.size + 1)
  }

  /** `print_control` of an item with a reserve size: in place if oreserve grants it, else through `write`. */
  function AfterReserved(s: Shape, reserve: nat, n: nat): Option<Shape>
    requires s.size <= s.capacity && n <= reserve
  {
    if s.capacity <= s.size + reserve then AfterWrite(s, n) else Some(Shape(s.capacity, s.size + n))
  }

  /**
   Where a piece of n characters goes, in plain numbers: a reserve that leaves room keeps it in place; otherwise the piece
   is written, in place if it fits, else after growing to twice the capacity or to the piece alone, whichever is larger.
   */
  lemma ReservedShape(s: Shape, reserve: nat, n: nat)
    requires s.size <= s.capacity && n <= reserve
    ensures AfterReserved(s, reserve, n).Some?
            <==> s.size + reserve < s.capacity || s.size == 0 || s.size + n <= 2 * s.capacity
    ensures AfterReserved(s, reserve, n).Some? ==>
              AfterReserved(s, reserve, n).value
              == Shape(if s.size + n <= s.capacity then s.capacity else if n <= 2 * s.capacity then 2 * s.capacity else n,
                       s.size + n)
  {
    WriteFitsIff(s, n);
  }

  // ---- items ----

  /**
   What can be printed: an item that knows a bound on its length and formats itself into reserved space, or a string
   view. `text` is the characters it produces. An item with a reserve size need not be printable in the other sense, of
   having a `print_define` that writes to the stream; string views are.
   */
  datatype Item = Reserved(reserve: nat, text: string, printable: bool) | View(text: string)
  {
    predicate Printable()
    {
      View? || printable
    }

    predicate Valid()
    {
      Reserved? ==> |text| <= reserve
    }
  }

  function AfterItem(s: Shape, item: Item): Option<Shape>
    requires s.size <= s.capacity && item.Valid()
  {
    match item
    case Reserved(reserve, text, _) => AfterReserved(s, reserve, |text|)
    case View(text) => AfterWrite(s, |text|)
  }

  /** The same for an item followed by one character. */
  function AfterFollowed(s: Shape, item: Item): Option<Shape>
    requires 0 < s.capacity && s.size <= s.capacity && item.Valid()
  {
    match item
    case Reserved(reserve, text, _) => AfterReserved(s, reserve + 1, |text| + 1)
    case View(text) =>
      var t := AfterWrite(s, |text|);
      if t.None? then None else Some(AfterPut(t.value))
  }

  function AfterItems(s: Shape, items: seq<Item>): Option<Shape>
    requires s.size <= s.capacity && forall i :: 0 <= i < |items| ==> items[i].Valid()
    decreases |items|
  {
    if items == [] then Some(s)
    else
      var t := AfterItem(s, items[0]);
      if t.None? then None else AfterItems(t.value, items[1..])
  }

  /** No piece longer than the current capacity can overrun, however many pieces came before it. */
  lemma {:induction false} SmallPiecesFit(s: Shape, items: seq<Item>)
    requires s.size <= s.capacity
    requires forall i :: 0 <= i < |items| ==> items[i].Valid() && |items[i].text| <= s.capacity
    ensures AfterItems(s, items).Some?
    decreases |items|
  {
    if items != [] {
      var t := AfterItem(s, items[0]);
      WriteFitsIff(s, |items[0].text|);
      SmallPiecesFit(t.value, items[1..]);
    }
  }

  /** A held character and a piece of twice the capacity: the new storage has room for the piece only. */
  lemma LongPieceOverruns(piece: string)
    requires |piece| == 2 * STATIC_SIZE
    ensures AfterItems(Shape(STATIC_SIZE, 0), [View("x"), View(piece)]) == None
    ensures AfterItems(Shape(STATIC_SIZE, 0), [View(piece)]).Some?
  {
    assert [View("x"), View(piece)][1..] == [View(piece)];
    assert AfterItems(Shape(STATIC_SIZE, 1), [View(piece)]) == None;
  }

  function Texts(items: seq<Item>): string
  {
    if items == [] then "" else items[0].text + Texts(items[1..])
  }

  lemma {:induction false} TextsAppend(items: seq<Item>, item: Item)
    ensures Texts(items + [item]) == Texts(items) + item.text
  {
    if items == [] {
      assert [item][1..] == [];
    } else {
      TextsAppend(items[1..], item);
      assert (items + [item])[1..] == items[1..] + [item];
    }
  }

  lemma {:induction false} AfterItemsAppend(s: Shape, items: seq<Item>, item: Item)
    requires s.size <= s.capacity && item.Valid() && forall i :: 0 <= i < |items| ==> items[i].Valid()
    ensures var t := AfterItems(s, items);
            && (t.Some? ==> t.value.size <= t.value.capacity)
            && AfterItems(s, items + [item]) == if t.None? then None else AfterItem(t.value, item)
    decreases |items|
  {
    if items == [] {
      assert [item][1..] == [];
    } else {
      assert (items + [item])[1..] == items[1..] + [item];
      var t := AfterItem(s, items[0]);
      if t.Some? {
        AfterItemsAppend(t.value, items[1..], item);
      }
    }
  }

  // ---- the buffer ----

  class TemporaryBuffer {
    var storage: array<char>
    var end: nat

    ghost predicate Valid()
      reads this
    {
      0 < storage.Length && end <= storage.Length
    }

    /** The characters between beg_ptr and end_ptr. */
    function Contents(): string
      reads this, storage
      requires Valid()
    {
      storage[..end]
    }

    function Room(): Shape
      reads this
    {
      Shape(storage.Length, end)
    }

    constructor ()
      ensures Valid() && fresh(storage) && Contents() == "" && Room() == Shape(4096, 0)
    {
      storage := new char[STATIC_SIZE];
      end := 0;
    }

    /** ogrow: moves the held characters to new storage. */
    method Grow(capacity: nat)
      requires Valid() && end <= capacity && 0 < capacity
      modifies this
      ensures Valid() && fresh(storage) && Contents() == old(Contents())
      ensures Room() == Shape(capacity, old(end))
    {
      var moved := new char[capacity];
      forall k | 0 <= k < end {
        moved[k] := storage[k];
      }
      assert moved[..end] == storage[..end];
      storage := moved;
    }

    /** Copies a text behind the held characters. */
    method CopyIn(text: string)
      requires Valid() && end + |text| <= storage.Length
      modifies storage, this`end
      ensures Valid() && storage == old(storage) && end == old(end) + |text|
      ensures Contents() == old(Contents()) + text
    {
      ghost var before := storage[..end];
      forall k | 0 <= k < |text| {
        storage[end + k] := text[k];
      }
      assert storage[..end] == before;
      assert storage[..end + |text|] == before + text;
      end := end + |text|;
    }

    /** overflow: doubles the storage and stores one character. */
    method Overflow(ch: char)
      requires Valid()
      modifies this
      ensures Valid() && fresh(storage)
      ensures Contents() == old(Contents()) + [ch]
      ensures Room() == Shape(2 * old(storage.Length), old(end) + 1)
    {
      Grow(2 * storage.Length);
      CopyIn([ch]);
    }

    method Put(ch: char)
      requires Valid()
      modifies this, storage
      ensures Valid() && (storage == old(storage) || fresh(storage))
      ensures Contents() == old(Contents()) + [ch] && Room() == AfterPut(old(Room()))
    {
      if end == storage.Length {
        Overflow(ch);
      } else {
        CopyIn([ch]);
      }
    }

    /** write; ok is false where the copy would leave the storage, and then nothing was copied. */
    method Write(text: string) returns (ok: bool)
      requires Valid()
      modifies this, storage
      ensures Valid() && (storage == old(storage) || fresh(storage))
      ensures ok <==> AfterWrite(old(Room()), |text|).Some?
      ensures ok ==> Contents() == old(Contents()) + text && Some(Room()) == AfterWrite(old(Room()), |text|)
      ensures !ok ==> Contents() == old(Contents())
    {
      var remain := storage.Length - end;
      if remain < |text| {
        var capacity := storage.Length * 2;
        if capacity < |text| {
          capacity := |text|;
        }
        Grow(capacity);
        if end + |text| > storage.Length {
          return false;
        }
      }
      CopyIn(text);
      ok := true;
    }

    /** oreserve: the current position if more than n characters of room are left, else nothing. */
    method Reserve(n: nat) returns (position: Option<nat>)
      requires Valid()
      ensures position == if storage.Length <= end + n then None else Some(end)
    {
      if storage.Length <= end + n {
        return None;
      }
      position := Some(end);
    }

    /** print_control */
    method PrintControl(item: Item) returns (ok: bool)
      requires Valid() && item.Valid()
      modifies this, storage
      ensures Valid() && (storage == old(storage) || fresh(storage))
      ensures ok <==> AfterItem(old(Room()), item).Some?
      ensures ok ==> Contents() == old(Contents()) + item.text && Some(Room()) == AfterItem(old(Room()), item)
      ensures !ok ==> Contents() == old(Contents())
    {
      match item
      case Reserved(reserve, text, _) =>
        var position := Reserve(reserve);
        if position == None {
          ok := Write(text);
        } else {
          CopyIn(text);
          ok := true;
        }
      case View(text) =>
        ok := Write(text);
    }

    /** print_control of an item followed by a character; print_control_line is this with a line feed. */
    method PrintControlFollowed(item: Item, ch: char) returns (ok: bool)
      requires Valid() && item.Valid()
      modifies this, storage
      ensures Valid() && (storage == old(storage) || fresh(storage))
      ensures ok <==> AfterFollowed(old(Room()), item).Some?
      ensures ok ==> Contents() == old(Contents()) + item.text + [ch]
      ensures ok ==> Some(Room()) == AfterFollowed(old(Room()), item)
    {
      match item
      case Reserved(reserve, text, _) =>
        var position := Reserve(reserve + 1);
        if position == None {
          ok := Write(text + [ch]);
        } else {
          CopyIn(text);
          CopyIn([ch]);
          ok := true;
        }
        assert old(Contents()) + (text + [ch]) == old(Contents()) + text + [ch];
      case View(text) =>
        ok := Write(text);
        if ok {
          Put(ch);
        }
    }
  }

  // ---- runs of calls ----

  datatype Call = Put(ch: char) | Write(text: string) | Print(item: Item) | PrintFollowed(item: Item, ch: char)
  {
    predicate Valid()
    {
      match this
      case Put(_) => true
      case Write(_) => true
      case Print(item) => item.Valid()
      case PrintFollowed(item, _) => item.Valid()
    }

    /** The characters the call prints. */
    function Text(): string
    {
      match this
      case Put(ch) => [ch]
      case Write(text) => text
      case Print(item) => item.text
      case PrintFollowed(item, ch) => item.text + [ch]
    }
  }

  function AfterCall(s: Shape, call: Call): Option<Shape>
    requires 0 < s.capacity && s.size <= s.capacity && call.Valid()
  {
    match call
    case Put(_) => Some(AfterPut(s))
    case Write(text) => AfterWrite(s, |text|)
    case Print(item) => AfterItem(s, item)
    case PrintFollowed(item, _) => AfterFollowed(s, item)
  }

  function AfterCalls(s: Shape, calls: seq<Call>): Option<Shape>
    requires 0 < s.capacity && s.size <= s.capacity && forall i :: 0 <= i < |calls| ==> calls[i].Valid()
    decreases |calls|
  {
    if calls == [] then Some(s)
    else
      var t := AfterCall(s, calls[0]);
      if t.None? then None else AfterCalls(t.value, calls[1..])
  }

  function Printed(calls: seq<Call>): string
  {
    if calls == [] then "" else calls[0].Text() + Printed(calls[1..])
  }

  /** What a run prints is what its calls print, in order. */
  lemma {:induction false} PrintedJoins(a: seq<Call>, b: seq<Call>, c: Call)
    ensures Printed(a + b) == Printed(a) + Printed(b) && Printed([c]) == c.Text()
  {
    hide Call.Text;
    assert [c][1..] == [];
    if a == [] {
      assert a + b == b;
    } else {
      PrintedJoins(a[1..], b, c);
      assert (a + b)[1..] == a[1..] + b;
      assert a[0].Text() + (Printed(a[1..]) + Printed(b)) == a[0].Text() + Printed(a[1..]) + Printed(b);
    }
  }

  /** Over any run of calls that print no more than the capacity at a time, the end never passes the storage. */
  lemma {:induction false} SmallCallsFit(s: Shape, calls: seq<Call>)
    requires 0 < s.capacity && s.size <= s.capacity
    requires forall i :: 0 <= i < |calls| ==> calls[i].Valid() && |calls[i].Text()| <= s.capacity
    ensures AfterCalls(s, calls).Some?
    decreases |calls|
  {
    if calls != [] {
      SmallCallsFit(AfterCall(s, calls[0]).value, calls[1..]);
    }
  }

  method Perform(buffer: TemporaryBuffer, call: Call) returns (ok: bool)
    requires buffer.Valid() && call.Valid()
    modifies buffer, buffer.storage
    ensures buffer.Valid() && (buffer.storage == old(buffer.storage) || fresh(buffer.storage))
    ensures ok <==> AfterCall(old(buffer.Room()), call).Some?
    ensures ok ==> buffer.Contents() == old(buffer.Contents()) + call.Text()
    ensures ok ==> Some(buffer.Room()) == AfterCall(old(buffer.Room()), call)
  {
    match call
    case Put(ch) =>
      buffer.Put(ch);
      ok := true;
    case Write(text) =>
      ok := buffer.Write(text);
    case Print(item) =>
      ok := buffer.PrintControl(item);
    case PrintFollowed(item, ch) =>
      ok := buffer.PrintControlFollowed(item, ch);
      assert old(buffer.Contents()) + (item.text + [ch]) == old(buffer.Contents()) + item.text + [ch];
  }

  /**
   Any run of calls: the buffer holds the concatenation of everything printed, whichever reserve, null-reserve or growth
   path each call took.
   */
  method RunCalls(buffer: TemporaryBuffer, calls: seq<Call>) returns (ok: bool)
    requires buffer.Valid() && forall i :: 0 <= i < |calls| ==> calls[i].Valid()
    modifies buffer, buffer.storage
    ensures buffer.Valid() && (buffer.storage == old(buffer.storage) || fresh(buffer.storage))
    ensures ok <==> AfterCalls(old(buffer.Room()), calls).Some?
    ensures ok ==> buffer.Contents() == old(buffer.Contents()) + Printed(calls)
    ensures ok ==> Some(buffer.Room()) == AfterCalls(old(buffer.Room()), calls)
    decreases |calls|
  {
    if calls == [] {
      return true;
    }
    ghost var held := buffer.Contents();
    ok := Perform(buffer, calls[0]);
    if ok {
      ok := RunCalls(buffer, calls[1..]);
      assert held + calls[0].Text() + Printed(calls[1..]) == held + Printed(calls);
    }
  }

  // ---- print and println through the buffer ----

  method CollectItems(buffer: TemporaryBuffer, items: seq<Item>) returns (ok: bool)
    requires buffer.Valid() && forall i :: 0 <= i < |items| ==> items[i].Valid()
    modifies buffer, buffer.storage
    ensures buffer.Valid() && (buffer.storage == old(buffer.storage) || fresh(buffer.storage))
    ensures ok <==> AfterItems(old(buffer.Room()), items).Some?
    ensures ok ==> buffer.Contents() == old(buffer.Contents()) + Texts(items)
    ensures ok ==> Some(buffer.Room()) == AfterItems(old(buffer.Room()), items)
  {
    hide AfterItem;
    ghost var start, held := buffer.Room(), buffer.Contents();
    var i := 0;
    assert items[..0] == [] && held + "" == held;
    while i != |items|
      invariant 0 <= i <= |items|
      invariant buffer.Valid() && (buffer.storage == old(buffer.storage) || fresh(buffer.storage))
      invariant Some(buffer.Room()) == AfterItems(start, items[..i])
      invariant buffer.Contents() == held + Texts(items[..i])
    {
      AfterItemsAppend(start, items[..i], items[i]);
      TextsAppend(items[..i], items[i]);
      assert items[..i + 1] == items[..i] + [items[i]];
      ok := buffer.PrintControl(items[i]);
      if !ok {
        OverrunStays(start, items, i + 1);
        return;
      }
      i := i + 1;
    }
    assert items[..i] == items;
    ok := true;
  }

  /** A run that overruns in a prefix overruns. */
  lemma {:induction false} OverrunStays(s: Shape, items: seq<Item>, n: nat)
    requires n <= |items| && s.size <= s.capacity && forall i :: 0 <= i < |items| ==> items[i].Valid()
    requires AfterItems(s, items[..n]).None?
    ensures AfterItems(s, items).None?
    decreases n
  {
    if n != 0 {
      assert items[..n][1..] == items[1..][..n - 1] && items[..n][0] == items[0];
      var t := AfterItem(s, items[0]);
      if t.Some? {
        OverrunStays(t.value, items[1..], n - 1);
      }
    }
  }

  /** What println does to the storage: a single item with a reserve size takes its line feed along. */
  function AfterLine(s: Shape, items: seq<Item>): Option<Shape>
    requires 0 < s.capacity && s.size <= s.capacity && forall i :: 0 <= i < |items| ==> items[i].Valid()
  {
    if |items| == 1 && items[0].Reserved? then AfterFollowed(s, items[0])
    else
      var t := AfterItems(s, items);
      RunStaysInside(s, items);
      if t.None? then None else Some(AfterPut(t.value))
  }

  lemma {:induction false} RunStaysInside(s: Shape, items: seq<Item>)
    requires s.size <= s.capacity && forall i :: 0 <= i < |items| ==> items[i].Valid()
    ensures AfterItems(s, items).Some? ==> AfterItems(s, items).value.size <= AfterItems(s, items).value.capacity
    decreases |items|
  {
    if items != [] {
      var t := AfterItem(s, items[0]);
      if t.Some? {
        RunStaysInside(t.value, items[1..]);
      }
    }
  }

  /** What the temporary-buffer branch of print hands to the stream; None where a copy overran. */
  method Collected(items: seq<Item>) returns (text: Option<string>)
    requires forall i :: 0 <= i < |items| ==> items[i].Valid()
    ensures text.Some? <==> AfterItems(Shape(STATIC_SIZE, 0), items).Some?
    ensures (forall i :: 0 <= i < |items| ==> |items[i].text| <= STATIC_SIZE) ==> text.Some?
    ensures text.Some? ==> text.value == Texts(items)
  {
    if forall i :: 0 <= i < |items| ==> |items[i].text| <= STATIC_SIZE {
      SmallPiecesFit(Shape(STATIC_SIZE, 0), items);
    }
    var buffer := new TemporaryBuffer();
    var ok := CollectItems(buffer, items);
    text := if ok then Some(buffer.Contents()) else None;
  }

  /** The same for println, which prints a single item with a reserve size together with its line feed. */
  method CollectedLine(items: seq<Item>) returns (text: Option<string>)
    requires forall i :: 0 <= i < |items| ==> items[i].Valid()
    ensures text.Some? <==> AfterLine(Shape(STATIC_SIZE, 0), items).Some?
    ensures (forall i :: 0 <= i < |items| ==> |items[i].text| <= STATIC_SIZE) ==> text.Some?
    ensures text.Some? ==> text.value == Texts(items) + "\n"
  {
    hide AfterItem, AfterFollowed, AfterPut, AfterItems, Texts;
    if forall i :: 0 <= i < |items| ==> |items[i].text| <= STATIC_SIZE {
      SmallLineFits(items);
    }
    var buffer := new TemporaryBuffer();
    var ok;
    if |items| == 1 && items[0].Reserved? {
      ok := buffer.PrintControlFollowed(items[0], '\n');
      SingleText(items);
    } else {
      ok := CollectItems(buffer, items);
      if ok {
        buffer.Put('\n');
      }
    }
    text := if ok then Some(buffer.Contents()) else None;
  }

  lemma SmallLineFits(items: seq<Item>)
    requires forall i :: 0 <= i < |items| ==> items[i].Valid() && |items[i].text| <= STATIC_SIZE
    ensures AfterLine(Shape(STATIC_SIZE, 0), items).Some?
  {
    SmallPiecesFit(Shape(STATIC_SIZE, 0), items);
  }

  lemma SingleText(items: seq<Item>)
    requires |items| == 1
    ensures Texts(items) == items[0].text
  {
    assert items[1..] == [];
  }
}
