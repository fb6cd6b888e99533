/**
 Skipping over buffered input: a stream delivered in chunks behaves like the plain sequence of its unread characters,
 whether it is read through the buffer pointers, through the buffer generator, or from a string view.
 */
module InputStream {

  function Concat(chunks: seq<string>): string
  {
    if chunks == [] then "" else chunks[0] + Concat(chunks[1..])
  }

  /** Joining keeps the order of the characters. */
  lemma {:induction false} ConcatJoins(a: seq<string>, b: seq<string>, c: string)
    ensures Concat(a + b) == Concat(a) + Concat(b) && Concat([c]) == c
  {
    assert [c][1..] == [];
    if a == [] {
      assert a + b == b;
    } else {
      ConcatJoins(a[1..], b, c);
      assert (a + b)[1..] == a[1..] + b;
    }
  }

  // ---- skipping in a plain sequence ----

  /** How many leading characters satisfy the predicate. */
  function Matching(s: string, pred: char -> bool): (n: nat)
    ensures n <= |s|
    ensures forall k :: 0 <= k < n ==> pred(s[k])
    ensures n < |s| ==> !pred(s[n])
  {
    if s == "" || !pred(s[0]) then 0 else 1 + Matching(s[1..], pred)
  }

  /** The count is determined: only one length separates matching characters from the first other one. */
  lemma {:induction false} MatchingUnique(s: string, pred: char -> bool, n: nat)
    requires n <= |s| && (forall k :: 0 <= k < n ==> pred(s[k])) && (n < |s| ==> !pred(s[n]))
    ensures Matching(s, pred) == n
  {
    if n != 0 {
      MatchingUnique(s[1..], pred, n - 1);
    }
  }

  lemma MatchingSplit(a: string, b: string, pred: char -> bool)
    ensures Matching(a + b, pred)
         == if Matching(a, pred) < |a| then Matching(a, pred) else |a| + Matching(b, pred)
  {
    var n, m := Matching(a, pred), Matching(b, pred);
    if n < |a| {
      MatchingUnique(a + b, pred, n);
    } else {
      MatchingUnique(a + b, pred, |a| + m);
    }
  }

  function Not(pred: char -> bool): char -> bool
  {
    c => !pred(c)
  }

  const NotNewline: char -> bool := c => c != '\n'

  // ---- a stream in chunks ----

  /** The chunk in the buffer, the position in it, and what the device will still deliver. */
  class BufferedInput {
    var chunk: string
    var curr: nat
    var pending: seq<string>

    /** A read that delivers nothing means the end of the stream, so every chunk still to come has characters. */
    ghost predicate Valid()
      reads this
    {
      curr <= |chunk| && forall i :: 0 <= i < |pending| ==> pending[i] != ""
    }

    /** Everything not read yet. */
    function Unread(): string
      reads this
      requires curr <= |chunk|
    {
      chunk[curr..] + Concat(pending)
    }

    constructor (chunks: seq<string>)
      requires forall i :: 0 <= i < |chunks| ==> chunks[i] != ""
      ensures Valid() && Unread() == Concat(chunks)
    {
      chunk, curr, pending := "", 0, chunks;
    }

    /** underflow: drops the chunk and loads the next; true if characters arrived. */
    method Underflow() returns (arrived: bool)
      requires Valid()
      modifies this
      ensures Valid() && curr == 0 && chunk + Concat(pending) == Concat(old(pending))
      ensures arrived <==> chunk != ""
      ensures arrived ==> |pending| < |old(pending)|
      ensures !arrived ==> old(pending) == [] && pending == [] && Concat(pending) == ""
    {
      curr := 0;
      if pending == [] {
        chunk := "";
      } else {
        chunk := pending[0];
        pending := pending[1..];
      }
      arrived := |chunk| != 0;
    }

    /** skip_while, buffer branch. */
    method SkipWhile(pred: char -> bool) returns (found: bool)
      requires Valid()
      modifies this
      ensures Valid() && SkipDone(old(Unread()), Unread(), pred) && found == (Unread() != "")
    {
      hide Matching, Skipped, SkipDone, Concat;
      ghost var start := Unread();
      Untouched(start, pred);
      while true
        invariant Valid() && Skipped(start, Unread(), pred)
        decreases |pending|
      {
        ghost var before := chunk[curr..];
        var b, e := curr, |chunk|;
        while b != e && pred(chunk[b])
          invariant curr <= b <= e && forall k :: curr <= k < b ==> pred(chunk[k])
        {
          b := b + 1;
        }
        ChunkScanned(start, before, Concat(pending), b - curr, pred);
        assert chunk[b..] == before[b - curr..];
        curr := b;
        if b == e {
          var arrived := Underflow();
          assert chunk[0..] == chunk;
          if arrived {
            continue;
          }
          return false;
        }
        return true;
      }
    }

    /** skip_until, buffer branch. */
    method SkipUntil(pred: char -> bool) returns (found: bool)
      requires Valid()
      modifies this
      ensures Valid() && SkipDone(old(Unread()), Unread(), Not(pred)) && found == (Unread() != "")
    {
      hide Matching, Skipped, SkipDone, Concat;
      ghost var start := Unread();
      Untouched(start, Not(pred));
      while true
        invariant Valid() && Skipped(start, Unread(), Not(pred))
        decreases |pending|
      {
        ghost var before := chunk[curr..];
        var b, e := curr, |chunk|;
        while b != e && !pred(chunk[b])
          invariant curr <= b <= e && forall k :: curr <= k < b ==> !pred(chunk[k])
        {
          b := b + 1;
        }
        ChunkScanned(start, before, Concat(pending), b - curr, Not(pred));
        assert chunk[b..] == before[b - curr..];
        curr := b;
        if b == e {
          var arrived := Underflow();
          assert chunk[0..] == chunk;
          if arrived {
            continue;
          }
          return false;
        }
        return true;
      }
    }

    /** The inner loop of skip_line: counts the characters of the chunk up to the next line feed. */
    method ScanLine(before: nat) returns (b: nat, skipped: nat)
      requires Valid()
      ensures curr <= b <= |chunk| && skipped == before + (b - curr)
      ensures forall k :: curr <= k < b ==> NotNewline(chunk[k])
      ensures b < |chunk| ==> !NotNewline(chunk[b])
    {
      b, skipped := curr, before;
      var e := |chunk|;
      while b != e && chunk[b] != '\n'
        invariant curr <= b <= e && skipped == before + (b - curr)
        invariant forall k :: curr <= k < b ==> chunk[k] != '\n'
      {
        b := b + 1;
        skipped := skipped + 1;
      }
    }

    /** One turn of skip_line: the chunk is scanned, then either the line feed is consumed or the next chunk loaded. */
    method LineTurn(ghost start: string, before: nat) returns (done: bool, skipped: nat)
      requires Valid() && Skipped(start, Unread(), NotNewline) && before == |start| - |Unread()|
      modifies this
      ensures Valid()
      ensures done ==> skipped == Matching(start, NotNewline) && |pending| <= |old(pending)|
      ensures done ==> Unread() == if skipped < |start| then start[skipped + 1..] else ""
      ensures !done ==> Skipped(start, Unread(), NotNewline) && skipped == |start| - |Unread()|
      ensures !done ==> |pending| < |old(pending)|
    {
      hide Matching, Skipped, SkipDone, Concat;
      ghost var rest := chunk[curr..];
      var b;
      b, skipped := ScanLine(before);
      ChunkScanned(start, rest, Concat(pending), b - curr, NotNewline);
      if b != |chunk| {
        LineFeedConsumed(start, rest, Concat(pending), b - curr, NotNewline);
        assert chunk[b + 1..] == rest[b - curr + 1..];
        curr := b + 1;
        done := true;
      } else {
        var arrived := Underflow();
        assert chunk[0..] == chunk;
        done := !arrived;
      }
    }

    /** skip_line, buffer branch: the number of characters before the line feed, which is consumed as well. */
    method SkipLine() returns (skipped: nat)
      requires Valid()
      modifies this
      ensures Valid() && skipped == Matching(old(Unread()), NotNewline)
      ensures Unread() == if skipped < |old(Unread())| then old(Unread())[skipped + 1..] else ""
      ensures skipped <= |old(Unread())| && '\n' !in old(Unread())[..skipped]
      ensures skipped < |old(Unread())| ==> old(Unread())[skipped] == '\n'
    {
      hide Matching, Skipped, SkipDone, Concat;
      ghost var start := Unread();
      LineCount(start);
      Untouched(start, NotNewline);
      skipped := 0;
      var done := false;
      while !done
        invariant Valid()
        invariant !done ==> Skipped(start, Unread(), NotNewline) && skipped == |start| - |Unread()|
        invariant done ==> skipped == Matching(start, NotNewline)
        invariant done ==> Unread() == if skipped < |start| then start[skipped + 1..] else ""
        decreases |pending|, !done
      {
        done, skipped := LineTurn(start, skipped);
      }
    }
  }

  /** now is what is left of start after dropping some matching characters, not yet all of them perhaps. */
  ghost predicate Skipped(start: string, now: string, pred: char -> bool)
  {
    && |now| <= |start|
    && now == start[|start| - |now|..]
    && Matching(start, pred) == |start| - |now| + Matching(now, pred)
  }

  /** Exactly the leading matching characters were dropped. */
  ghost predicate SkipDone(start: string, now: string, pred: char -> bool)
  {
    now == start[Matching(start, pred)..]
  }

  /** What a skip has done, in terms of the characters: it dropped matching ones up to the first that does not match. */
  lemma SkipDoneMeans(start: string, now: string, pred: char -> bool)
    requires SkipDone(start, now, pred)
    ensures |now| <= |start| && now == start[|start| - |now|..]
    ensures forall k :: 0 <= k < |start| - |now| ==> pred(start[k])
    ensures now != "" ==> !pred(now[0])
  {
    hide Matching;
  }

  /** For skip_until: no dropped character satisfies the predicate, and the first one left does. */
  lemma SkipUntilMeans(start: string, now: string, pred: char -> bool)
    requires SkipDone(start, now, Not(pred))
    ensures |now| <= |start| && now == start[|start| - |now|..]
    ensures forall k :: 0 <= k < |start| - |now| ==> !pred(start[k])
    ensures now != "" ==> pred(now[0])
  {
    SkipDoneMeans(start, now, Not(pred));
  }

  /** The count of a line stops at the first line feed. */
  lemma LineCount(s: string)
    ensures var n := Matching(s, NotNewline);
            n <= |s| && '\n' !in s[..n] && (n < |s| ==> s[n] == '\n')
  {
    hide Matching;
  }

  lemma Untouched(start: string, pred: char -> bool)
    ensures Skipped(start, start, pred)
  {
  }

  /** Scanning the rest of a chunk: what follows the matching characters, and the end if one does not match. */
  lemma ChunkScanned(start: string, before: string, coming: string, k: nat, pred: char -> bool)
    requires Skipped(start, before + coming, pred)
    requires k <= |before| && (forall i :: 0 <= i < k ==> pred(before[i])) && (k < |before| ==> !pred(before[k]))
    ensures Skipped(start, before[k..] + coming, pred)
    ensures k < |before| ==> SkipDone(start, before[k..] + coming, pred)
    ensures k < |before| ==> Matching(start, pred) == |start| - |before[k..] + coming|
    ensures k == |before| ==> before[k..] + coming == coming
    ensures k == |before| && coming == "" ==> SkipDone(start, "", pred) && Matching(start, pred) == |start|
  {
    hide Matching, Skipped, SkipDone;
    var now, next := before + coming, before[k..] + coming;
    MatchingUnique(before, pred, k);
    MatchingSplit(before, coming, pred);
    assert next == now[k..];
    DropMatching(start, now, k, pred);
    if k < |before| {
      assert next[0] == before[k];
    } else {
      assert next == coming;
    }
    FrontScanned(start, next, pred);
  }

  lemma LineFeedConsumed(start: string, before: string, coming: string, k: nat, pred: char -> bool)
    requires k < |before| && SkipDone(start, before[k..] + coming, pred)
    ensures Matching(start, pred) < |start|
    ensures before[k + 1..] + coming == start[Matching(start, pred) + 1..]
  {
    var next := before[k..] + coming;
    assert before[k + 1..] + coming == next[1..];
  }

  lemma DropMatching(start: string, now: string, k: nat, pred: char -> bool)
    requires Skipped(start, now, pred) && k <= Matching(now, pred)
    ensures Skipped(start, now[k..], pred)
  {
    MatchingUnique(now[k..], pred, Matching(now, pred) - k);
    assert now[k..] == start[|start| - |now| + k..];
  }

  /** Stepping over one matching character at the front, or stopping at one that does not match. */
  lemma FrontScanned(start: string, now: string, pred: char -> bool)
    requires Skipped(start, now, pred)
    ensures now != "" && pred(now[0]) ==> Skipped(start, now[1..], pred)
    ensures now == "" || !pred(now[0]) ==> SkipDone(start, now, pred) && Matching(start, pred) == |start| - |now|
  {
    if now != "" && pred(now[0]) {
      DropMatching(start, now, 1, pred);
    }
  }

  // ---- string views ----

  class StringView {
    var s: string

    constructor (s: string)
      ensures this.s == s
    {
      this.s := s;
    }

    predicate Empty()
      reads this
    {
      |s| == 0
    }

    function Front(): char
      reads this
      requires !Empty()
    {
      s[0]
    }

    method RemovePrefix(n: nat)
      requires n <= |s|
      modifies this
      ensures s == old(s)[n..]
    {
      s := s[n..];
    }

    /** skip_while, generator branch: the iterator's end is the empty view, and ++ removes the first character. */
    method SkipWhile(pred: char -> bool) returns (found: bool)
      modifies this
      ensures SkipDone(old(s), s, pred) && found == (s != "")
    {
      hide Matching;
      Untouched(s, pred);
      while !Empty() && pred(Front())
        invariant Skipped(old(s), s, pred)
        decreases |s|
      {
        FrontScanned(old(s), s, pred);
        RemovePrefix(1);
      }
      FrontScanned(old(s), s, pred);
      found := !Empty();
    }

    method SkipUntil(pred: char -> bool) returns (found: bool)
      modifies this
      ensures SkipDone(old(s), s, Not(pred)) && found == (s != "")
    {
      hide Matching;
      Untouched(s, Not(pred));
      while !Empty() && !pred(Front())
        invariant Skipped(old(s), s, Not(pred))
        decreases |s|
      {
        FrontScanned(old(s), s, Not(pred));
        RemovePrefix(1);
      }
      FrontScanned(old(s), s, Not(pred));
      found := !Empty();
    }

    method SkipLine() returns (n: nat)
      modifies this
      ensures n == Matching(old(s), NotNewline)
      ensures s == if n < |old(s)| then old(s)[n + 1..] else ""
      ensures n <= |old(s)| && '\n' !in old(s)[..n] && (n < |old(s)| ==> old(s)[n] == '\n')
    {
      LineCount(s);
      hide Matching;
      Untouched(s, NotNewline);
      n := 0;
      while !Empty() && Front() != '\n'
        invariant Skipped(old(s), s, NotNewline) && n == |old(s)| - |s|
        decreases |s|
      {
        FrontScanned(old(s), s, NotNewline);
        RemovePrefix(1);
        n := n + 1;
      }
      FrontScanned(old(s), s, NotNewline);
      if !Empty() {
        RemovePrefix(1);
      }
    }
  }

  // ---- the generator over a buffered stream ----

  /** The iterator is live (its pointer is not null) exactly while a character is waiting in the buffer. */
  ghost predicate Waiting(input: BufferedInput, live: bool)
    reads input
  {
    input.Valid() && if live then input.curr < |input.chunk| else input.Unread() == ""
  }

  /** igenerator: loads a chunk if the buffer is exhausted. */
  method Igenerator(input: BufferedInput) returns (live: bool)
    requires input.Valid()
    modifies input
    ensures Waiting(input, live) && input.Unread() == old(input.Unread())
    ensures live <==> input.Unread() != ""
  {
    live := true;
    if input.curr == |input.chunk| {
      assert input.Unread() == Concat(input.pending);
      var arrived := input.Underflow();
      assert input.chunk[0..] == input.chunk;
      if !arrived {
        live := false;
      }
    }
  }

  /** operator++ with deal_with_underflow: the next chunk is loaded as soon as the current one is used up. */
  method Increment(input: BufferedInput) returns (live: bool)
    requires Waiting(input, true)
    modifies input
    ensures Waiting(input, live) && input.Unread() == old(input.Unread())[1..]
    ensures live <==> input.Unread() != ""
  {
    assert input.chunk[input.curr..] == [input.chunk[input.curr]] + input.chunk[input.curr + 1..];
    input.curr := input.curr + 1;
    live := true;
    if input.curr == |input.chunk| {
      assert input.Unread() == Concat(input.pending);
      var arrived := input.Underflow();
      assert input.chunk[0..] == input.chunk;
      if !arrived {
        live := false;
      }
    }
  }

  /** The generator loop over a buffered stream, stopping at the first character that does not match. */
  method SkipWhileByGenerator(input: BufferedInput, pred: char -> bool) returns (found: bool)
    requires input.Valid()
    modifies input
    ensures input.Valid() && SkipDone(old(input.Unread()), input.Unread(), pred) && found == (input.Unread() != "")
  {
    hide Matching, Skipped, SkipDone, Concat;
    ghost var start := input.Unread();
    Untouched(start, pred);
    var live := Igenerator(input);
    while live && pred(input.chunk[input.curr])
      invariant Waiting(input, live) && Skipped(start, input.Unread(), pred)
      invariant live <==> input.Unread() != ""
      decreases |input.Unread()|
    {
      FrontScanned(start, input.Unread(), pred);
      live := Increment(input);
    }
    FrontScanned(start, input.Unread(), pred);
    found := live;
  }

  /** The generator loop of skip_until. */
  method SkipUntilByGenerator(input: BufferedInput, pred: char -> bool) returns (found: bool)
    requires input.Valid()
    modifies input
    ensures input.Valid() && SkipDone(old(input.Unread()), input.Unread(), Not(pred)) && found == (input.Unread() != "")
  {
    hide Matching, Skipped, SkipDone, Concat;
    ghost var start := input.Unread();
    Untouched(start, Not(pred));
    var live := Igenerator(input);
    while live && !pred(input.chunk[input.curr])
      invariant Waiting(input, live) && Skipped(start, input.Unread(), Not(pred))
      invariant live <==> input.Unread() != ""
      decreases |input.Unread()|
    {
      FrontScanned(start, input.Unread(), Not(pred));
      live := Increment(input);
    }
    FrontScanned(start, input.Unread(), Not(pred));
    found := live;
  }

  /** skip_line's generator loop over a buffered stream. */
  method SkipLineByGenerator(input: BufferedInput) returns (n: nat)
    requires input.Valid()
    modifies input
    ensures input.Valid() && n == Matching(old(input.Unread()), NotNewline)
    ensures input.Unread() == if n < |old(input.Unread())| then old(input.Unread())[n + 1..] else ""
    ensures n <= |old(input.Unread())| && '\n' !in old(input.Unread())[..n]
    ensures n < |old(input.Unread())| ==> old(input.Unread())[n] == '\n'
  {
    LineCount(input.Unread());
    hide Matching, Skipped, SkipDone, Concat;
    ghost var start := input.Unread();
    Untouched(start, NotNewline);
    var live := Igenerator(input);
    n := 0;
    while live && input.chunk[input.curr] != '\n'
      invariant Waiting(input, live) && Skipped(start, input.Unread(), NotNewline)
      invariant n == |start| - |input.Unread()| && (live <==> input.Unread() != "")
      decreases |input.Unread()|
    {
      FrontScanned(start, input.Unread(), NotNewline);
      live := Increment(input);
      n := n + 1;
    }
    FrontScanned(start, input.Unread(), NotNewline);
    LineLeft(start, input.Unread());
    if live {
      live := Increment(input);
    }
  }

  /** Behind the matching characters: the line feed and the rest, or nothing. */
  lemma LineLeft(start: string, now: string)
    requires SkipDone(start, now, NotNewline)
    ensures now != "" ==> Matching(start, NotNewline) < |start| && now[1..] == start[Matching(start, NotNewline) + 1..]
    ensures now == "" ==> Matching(start, NotNewline) == |start|
  {
    hide Matching;
  }

  /**
   Chunk independence: what any skip leaves depends on the unread characters only. A buffered stream, however it is cut
   into chunks, and a string view over the joined chunks end with the same unread characters and the same answer.
   */
  method SkipWhileAgrees(chunks: seq<string>, pred: char -> bool)
    returns (buffered: bool, viewed: bool, generated: bool, rests: (string, string, string))
    requires forall i :: 0 <= i < |chunks| ==> chunks[i] != ""
    ensures rests.0 == rests.1 == rests.2 && SkipDone(Concat(chunks), rests.0, pred)
    ensures buffered == generated == viewed == (rests.0 != "")
  {
    hide Matching, Concat;
    var input := new BufferedInput(chunks);
    var other := new BufferedInput(chunks);
    var view := new StringView(Concat(chunks));
    buffered := input.SkipWhile(pred);
    generated := SkipWhileByGenerator(other, pred);
    viewed := view.SkipWhile(pred);
    rests := (input.Unread(), other.Unread(), view.s);
  }

  method SkipUntilAgrees(chunks: seq<string>, pred: char -> bool)
    returns (buffered: bool, viewed: bool, generated: bool, rests: (string, string, string))
    requires forall i :: 0 <= i < |chunks| ==> chunks[i] != ""
    ensures rests.0 == rests.1 == rests.2 && SkipDone(Concat(chunks), rests.0, Not(pred))
    ensures buffered == generated == viewed == (rests.0 != "")
  {
    hide Matching, Concat;
    var input := new BufferedInput(chunks);
    var other := new BufferedInput(chunks);
    var view := new StringView(Concat(chunks));
    buffered := input.SkipUntil(pred);
    generated := SkipUntilByGenerator(other, pred);
    viewed := view.SkipUntil(pred);
    rests := (input.Unread(), other.Unread(), view.s);
  }

  /** The same for lines: equal counts and equal unread characters, however the stream is cut. */
  method SkipLineAgrees(chunks: seq<string>)
    returns (buffered: nat, viewed: nat, generated: nat, rests: (string, string, string))
    requires forall i :: 0 <= i < |chunks| ==> chunks[i] != ""
    ensures buffered == generated == viewed == Matching(Concat(chunks), NotNewline)
    ensures rests.0 == rests.1 == rests.2 == if viewed < |Concat(chunks)| then Concat(chunks)[viewed + 1..] else ""
    ensures var n := viewed;
            && n <= |Concat(chunks)| && '\n' !in Concat(chunks)[..n]
            && (n < |Concat(chunks)| ==> Concat(chunks)[n] == '\n')
  {
    hide Matching, Concat;
    var input := new BufferedInput(chunks);
    var other := new BufferedInput(chunks);
    var view := new StringView(Concat(chunks));
    buffered := input.SkipLine();
    generated := SkipLineByGenerator(other);
    viewed := view.SkipLine();
    rests := (input.Unread(), other.Unread(), view.s);
  }
}
