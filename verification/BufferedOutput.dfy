/**
 The buffered output stream over a handle: characters wait in a fixed buffer and are flushed to the handle instead of
 growing the buffer. What the handle has received followed by what the buffer holds is everything printed, in order.
 */
module BufferedOutput {
  import opened Basics
  import opened OutputBuffer

  /** An unbuffered handle, whose `write` delivers all its characters. */
  class Handle {
    var written: string

    constructor ()
      ensures written == ""
    {
      written := "";
    }

    method Write(text: string)
      modifies this
      ensures written == old(written) + text
    {
      written := written + text;
    }

    /** print_control without a reserve stream: formatted into a local array if there is a reserve size, then written. */
    method PrintControl(item: Item)
      modifies this
      ensures written == old(written) + item.text
    {
      match item
      case Reserved(_, text, _) =>
        var local := text;
        Write(local);
      case View(text) =>
        Write(text);
    }
  }

  /**
   How many characters `write` of n characters leaves in a buffer that holds `held`: all of them if they fit; in a cold
   buffer all if they do not reach its size, else none; otherwise what is left after filling the buffer up and flushing
   it, unless that exceeds the buffer again.
   */
  function HeldAfterWrite(size: nat, cold: bool, held: nat, n: nat): nat
    requires held <= size
  {
    var room := if cold then 0 else size - held;
    if n <= room then held + n
    else if cold then if size <= n then 0 else n
    else if size < n - room then 0
    else n - room
  }

  /** The borders of the branches: an exactly full buffer is kept, a cold piece of exactly the size is not. */
  lemma HeldAtBorders(size: nat, held: nat)
    requires 0 < held <= size
    ensures HeldAfterWrite(size, false, held, size - held) == size
    ensures HeldAfterWrite(size, false, held, size - held + 1) == 1
    ensures HeldAfterWrite(size, false, held, size - held + size) == size
    ensures HeldAfterWrite(size, false, held, size - held + size + 1) == 0
    ensures HeldAfterWrite(size, true, 0, size) == 0 && HeldAfterWrite(size, true, 0, size - 1) == size - 1
  {
  }

  class Obuf {
    const handle: Handle
    const size: nat  // Buf::size
    var storage: array?<char>  // null while the buffer is cold
    var curr: nat

    ghost predicate Valid()
      reads this
    {
      && 0 < size
      && if storage == null then curr == 0 else storage.Length == size && curr <= size
    }

    /** The characters waiting between beg and curr. */
    function Held(): string
      requires Valid()
      reads this, storage
    {
      if storage == null then "" else storage[..curr]
    }

    /** Everything printed so far: delivered to the handle, then held. */
    function Everything(): string
      requires Valid()
      reads this, storage, handle
    {
      handle.written + Held()
    }

    /** How many characters fit before the end of the buffer; a cold buffer has no room. */
    function Room(): nat
      requires Valid()
      reads this
    {
      if storage == null then 0 else size - curr
    }

    constructor (handle: Handle, size: nat)
      requires 0 < size
      ensures Valid() && this.handle == handle && this.size == size && storage == null
    {
      this.handle, this.size := handle, size;
      storage, curr := null, 0;
    }

    /** init_space, with the end set behind the new space. */
    method InitSpace()
      requires Valid() && storage == null
      modifies this
      ensures Valid() && storage != null && fresh(storage) && curr == 0
    {
      storage := new char[size];
    }

    /** Copies a text behind the held characters. */
    method CopyIn(text: string)
      requires Valid() && |text| <= Room()
      modifies this`curr, storage
      ensures Valid() && Held() == old(Held()) + text
    {
      if storage != null {
        ghost var before := storage[..curr];
        forall k | 0 <= k < |text| {
          storage[curr + k] := text[k];
        }
        assert storage[..curr] == before;
        assert storage[..curr + |text|] == before + text;
        curr := curr + |text|;
      }
    }

    /** overflow: called with the buffer full or cold. */
    method Overflow(ch: char)
      requires Valid() && Room() == 0
      modifies this, storage, handle
      ensures Valid() && (storage == old(storage) || fresh(storage))
      ensures Everything() == old(Everything()) + [ch] && Held() == [ch]
    {
      if storage != null {
        handle.Write(storage[..]);
        assert storage[..] == storage[..curr];
        curr := 0;
      } else {
        InitSpace();
      }
      CopyIn([ch]);
    }

    method Put(ch: char)
      requires Valid()
      modifies this, storage, handle
      ensures Valid() && (storage == old(storage) || fresh(storage))
      ensures Everything() == old(Everything()) + [ch]
      ensures |Held()| == (if old(Room()) == 0 then 1 else old(|Held()|) + 1)
    {
      if Room() == 0 {
        Overflow(ch);
      } else {
        CopyIn([ch]);
        Appended(old(handle.written), old(Held()), [ch]);
      }
    }

    /** obuf_write: what fits is copied; a cold buffer is filled or bypassed; a warm one is filled up and flushed. */
    method Write(text: string)
      requires Valid()
      modifies this, storage, handle
      ensures Valid() && (storage == old(storage) || fresh(storage))
      ensures Everything() == old(Everything()) + text
      ensures |Held()| == HeldAfterWrite(size, old(storage == null), old(|Held()|), |text|)
    {
      if Room() < |text| {
        if storage == null {
          WriteCold(text);
        } else {
          WriteOver(text);
        }
      } else {
        CopyIn(text);
        Appended(old(handle.written), old(Held()), text);
      }
    }

    method WriteCold(text: string)
      requires Valid() && storage == null && text != ""
      modifies this, handle
      ensures Valid() && (storage == null || fresh(storage))
      ensures Everything() == old(Everything()) + text && |Held()| == (if size <= |text| then 0 else |text|)
    {
      if size <= |text| {
        handle.Write(text);
      } else {
        InitSpace();
        CopyIn(text);
        Appended(old(handle.written), "", text);
      }
    }

    method WriteOver(text: string)
      requires Valid() && storage != null && Room() < |text|
      modifies this`curr, storage, handle
      ensures Valid() && Everything() == old(Everything()) + text
      ensures |Held()| == HeldAfterWrite(size, false, old(|Held()|), |text|)
    {
      var n := Room();
      CopyIn(text[..n]);
      assert storage[..] == storage[..curr];
      handle.Write(storage[..]);
      curr := 0;
      var rest := text[n..];
      SplitAppended(old(handle.written), old(Held()), text, n);
      if size < |rest| {
        handle.Write(rest);
      } else {
        CopyIn(rest);
      }
    }

    /** oreserve: the current position if more than n characters of room are left; never in a cold buffer. */
    method Reserve(n: nat) returns (position: Option<nat>)
      requires Valid()
      ensures position == if Room() <= n then None else Some(curr)
    {
      if storage == null || size <= curr + n {
        return None;
      }
      position := Some(curr);
    }

    method PrintControl(item: Item)
      requires Valid() && item.Valid()
      modifies this, storage, handle
      ensures Valid() && (storage == old(storage) || fresh(storage))
      ensures Everything() == old(Everything()) + item.text
    {
      match item
      case Reserved(reserve, text, _) =>
        var position := Reserve(reserve);
        if position == None {
          Write(text);
        } else {
          CopyIn(text);
          Appended(old(handle.written), old(Held()), text);
        }
      case View(text) =>
        Write(text);
    }

    /** print_control of an item followed by a character; print_control_line is this with a line feed. */
    method PrintControlFollowed(item: Item, ch: char)
      requires Valid() && item.Valid()
      modifies this, storage, handle
      ensures Valid() && (storage == old(storage) || fresh(storage))
      ensures Everything() == old(Everything()) + (item.text + [ch])
    {
      match item
      case Reserved(reserve, text, _) =>
        var position := Reserve(reserve + 1);
        if position == None {
          Write(text + [ch]);
        } else {
          CopyIn(text);
          CopyIn([ch]);
          Appended(old(handle.written), old(Held()), text);
          Appended(old(handle.written), old(Held()) + text, [ch]);
          Appended(old(Everything()), text, [ch]);
        }
      case View(text) =>
        Write(text);
        Put(ch);
        Appended(old(Everything()), text, [ch]);
    }

    method Flush()
      requires Valid()
      modifies this`curr, handle
      ensures Valid() && Held() == "" && handle.written == old(Everything())
    {
      if curr == 0 {
        return;
      }
      handle.Write(storage[..curr]);
      curr := 0;
    }

    /** close_impl, run by the destructor: what is held reaches the handle. */
    method Close()
      requires Valid()
      modifies handle
      ensures handle.written == old(Everything())
    {
      if storage != null {
        handle.Write(storage[..curr]);
      }
    }
  }

  lemma Appended(written: string, held: string, text: string)
    ensures written + (held + text) == written + held + text
  {
  }

  lemma SplitAppended(written: string, held: string, text: string, n: nat)
    requires n <= |text|
    ensures written + (held + text[..n]) + text[n..] == written + held + text
  {
  }

  // ---- runs of calls ----

  method Perform(out: Obuf, call: Call)
    requires out.Valid() && call.Valid()
    modifies out, out.storage, out.handle
    ensures out.Valid() && (out.storage == old(out.storage) || fresh(out.storage))
    ensures out.Everything() == old(out.Everything()) + call.Text()
  {
    match call
    case Put(ch) =>
      out.Put(ch);
    case Write(text) =>
      out.Write(text);
    case Print(item) =>
      out.PrintControl(item);
    case PrintFollowed(item, ch) =>
      out.PrintControlFollowed(item, ch);
  }

  /** Any run of calls, of any lengths: nothing is lost, repeated or reordered, whichever branch each call took. */
  method RunCalls(out: Obuf, calls: seq<Call>)
    requires out.Valid() && forall i :: 0 <= i < |calls| ==> calls[i].Valid()
    modifies out, out.storage, out.handle
    ensures out.Valid() && (out.storage == old(out.storage) || fresh(out.storage))
    ensures out.Everything() == old(out.Everything()) + Printed(calls)
    decreases |calls|
  {
    if calls != [] {
      Perform(out, calls[0]);
      RunCalls(out, calls[1..]);
      Appended(old(out.Everything()), calls[0].Text(), Printed(calls[1..]));
    }
  }

  /** A whole run ends in the handle, in one piece, when the stream is closed. */
  method RunAndClose(calls: seq<Call>, size: nat) returns (delivered: string)
    requires 0 < size && forall i :: 0 <= i < |calls| ==> calls[i].Valid()
    ensures delivered == Printed(calls)
  {
    var handle := new Handle();
    var out := new Obuf(handle, size);
    RunCalls(out, calls);
    out.Close();
    delivered := handle.written;
  }
}
