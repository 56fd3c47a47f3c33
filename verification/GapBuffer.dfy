/** The line editor's text store (pktgen/lib/cli/cli_gapbuf.h, cli_gapbuf.c).

    `Editor` is the meaning: a plain text with a cursor.  `GapBuffers` is the store: one
    growable block of bytes with a movable hole, changed in place.  Pointers of the original
    are offsets from the start of the block. */
module Editor {

  datatype State = State(text: seq<char>, cursor: nat) {
    predicate Ok() { cursor <= |text| }
  }

  datatype Op =
    | Insert(c: char)
    | InsertString(s: seq<char>)
    | Put(c: char)
    | Delete(n: nat)
    | MoveLeft
    | MoveRight
    | SetPoint(i: nat)
    | MoveToEnd

  /** What an operation asks of its caller: never delete or jump past the end of the text. */
  predicate Legal(op: Op, st: State) {
    st.Ok() &&
    match op
    case Delete(n) => n <= |st.text| - st.cursor
    case SetPoint(i) => i <= |st.text|
    case _ => true
  }

  /** The text with s put in at position i. */
  function Spliced(text: seq<char>, i: nat, s: seq<char>): seq<char>
    requires i <= |text|
  {
    text[..i] + s + text[i..]
  }

  /** The text without the n characters from position i on. */
  function Without(text: seq<char>, i: nat, n: nat): seq<char>
    requires i + n <= |text|
  {
    text[..i] + text[i + n..]
  }

  /** The text with c as its i-th character, be that a new last one. */
  function Overwritten(text: seq<char>, i: nat, c: char): seq<char>
    requires i <= |text|
  {
    if i == |text| then text + [c] else text[i := c]
  }

  function Apply(op: Op, st: State): (r: State)
    requires Legal(op, st)
    ensures r.Ok()
  {
    var State(text, cursor) := st;
    match op
    case Insert(c) => State(Spliced(text, cursor, [c]), cursor + 1)
    case InsertString(s) => State(Spliced(text, cursor, s), cursor + |s|)
    case Put(c) => State(Overwritten(text, cursor, c), cursor)
    case Delete(n) => State(Without(text, cursor, n), cursor)
    case MoveLeft => State(text, if cursor == 0 then 0 else cursor - 1)
    case MoveRight => State(text, if cursor == |text| then cursor else cursor + 1)
    case SetPoint(i) => State(text, i)
    case MoveToEnd => State(text, |text|)
  }

  ghost predicate LegalRun(ops: seq<Op>, st: State)
  {
    ops == [] || (Legal(ops[0], st) && LegalRun(ops[1..], Apply(ops[0], st)))
  }

  ghost function Run(ops: seq<Op>, st: State): State
    requires LegalRun(ops, st)
  {
    if ops == [] then st else Run(ops[1..], Apply(ops[0], st))
  }

  function Inserts(s: seq<char>): (ops: seq<Op>)
    ensures |ops| == |s|
  {
    if s == [] then [] else [Insert(s[0])] + Inserts(s[1..])
  }

  lemma SplicedTwice(text: seq<char>, i: nat, s: seq<char>, t: seq<char>)
    requires i <= |text|
    ensures Spliced(Spliced(text, i, s), i + |s|, t) == Spliced(text, i, s + t)
    ensures Spliced(text, i, []) == text
  {
    var mid := Spliced(text, i, s);
    assert mid[..i + |s|] == text[..i] + s;
    assert mid[i + |s|..] == text[i..];
  }

  /** A string insert is the same as inserting its characters one at a time. */
  lemma {:induction false} InsertStringIsInserts(s: seq<char>, st: State)
    requires st.Ok()
    ensures LegalRun(Inserts(s), st)
    ensures Run(Inserts(s), st) == Apply(InsertString(s), st)
  {
    SplicedTwice(st.text, st.cursor, [], []);
    if s != [] {
      InsertStringIsInserts(s[1..], Apply(Insert(s[0]), st));
      SplicedTwice(st.text, st.cursor, [s[0]], s[1..]);
      assert [s[0]] + s[1..] == s;
      assert Inserts(s)[1..] == Inserts(s[1..]);
    }
  }

  /** Going back over an inserted string and deleting it undoes the insert. */
  lemma InsertThenDelete(s: seq<char>, st: State)
    requires st.Ok()
    ensures var inserted := Apply(InsertString(s), st);
      Legal(SetPoint(st.cursor), inserted) &&
      var back := Apply(SetPoint(st.cursor), inserted);
      Legal(Delete(|s|), back) && Apply(Delete(|s|), back) == st
  {
    var text := Spliced(st.text, st.cursor, s);
    assert text[..st.cursor] == st.text[..st.cursor];
    assert text[st.cursor + |s|..] == st.text[st.cursor..];
    assert st.text[..st.cursor] + st.text[st.cursor..] == st.text;
  }
}

module GapBuffers {
  import opened Editor

  const DEFAULT_GAP_SIZE: nat := 8

  /** The C library's overlapping block move. */
  method Memmove(a: array<char>, dst: nat, src: nat, n: nat)
    requires dst + n <= a.Length && src + n <= a.Length
    modifies a
    ensures forall i :: 0 <= i < a.Length ==> a[i] == old(if dst <= i < dst + n then a[src + i - dst] else a[i])
  {
    forall i | dst <= i < dst + n {
      a[i] := a[src + i - dst];
    }
  }

  /** The C library's copy between two blocks. */
  method Memcpy(dst: array<char>, to: nat, src: array<char>, from: nat, n: nat)
    requires dst != src && to + n <= dst.Length && from + n <= src.Length
    modifies dst
    ensures forall i :: 0 <= i < dst.Length ==> dst[i] == if to <= i < to + n then src[from + i - to] else old(dst[i])
  {
    forall i | to <= i < to + n {
      dst[i] := src[from + i - to];
    }
  }

  /** The C library's realloc: what is beyond the bytes kept is arbitrary. */
  method Realloc(a: array<char>, size: nat) returns (b: array<char>)
    ensures fresh(b) && b.Length == size
    ensures forall i :: 0 <= i < size && i < a.Length ==> b[i] == a[i]
  {
    b := new char[size];
    Memcpy(b, 0, a, 0, if size < a.Length then size else a.Length);
  }

  /** Length of the C string that starts a piece of memory. */
  function Strlen(str: seq<char>): (n: nat)
    requires '\0' in str
    ensures n < |str| && str[n] == '\0' && '\0' !in str[..n]
  {
    if str[0] == '\0' then 0
    else
      assert str == [str[0]] + str[1..];
      var n := 1 + Strlen(str[1..]);
      assert str[..n] == [str[0]] + str[1..][..n - 1];
      n
  }

  class GapBuffer {
    ghost var text: seq<char>  // what the editor shows
    ghost var cursor: nat

    var block: array<char>  // what the allocator handed out
    var ebuf: nat           // end of the used part of the block
    var point: nat
    var gap: nat            // the hole is block[gap..egap]
    var egap: nat

    /** The hole lies in the used part, the used part in the block, and the bytes around the
        hole are the text. */
    ghost predicate Holds()
      reads this, block
    {
      gap <= egap <= ebuf <= block.Length &&
      |text| == ebuf - (egap - gap) &&
      (forall i :: 0 <= i < gap ==> text[i] == block[i]) &&
      (forall i :: egap <= i < ebuf ==> text[i - (egap - gap)] == block[i])
    }

    /** Moreover point is never strictly inside the hole, and stands for the cursor. */
    ghost predicate Valid()
      reads this, block
    {
      Holds() &&
      (point <= gap || egap <= point <= ebuf) &&
      cursor == if point <= gap then point else point - (egap - gap)
    }

    /** Read left to right and without the hole, the block is the text. */
    lemma TextIsBytesAroundHole()
      requires Holds()
      ensures text == block[..gap] + block[egap..ebuf]
    {
      assert forall i :: gap <= i < |text| ==> text[i] == block[i + (egap - gap)];
    }

    ghost function View(): (st: State)
      requires Valid()
      reads this, block
      ensures st.Ok()
    {
      State(text, cursor)
    }

    /** gb_create and gb_init_buf: an empty text in a block of the given size. */
    constructor (size: nat)
      ensures Valid() && fresh(block) && block.Length == ebuf == size
      ensures text == [] && cursor == 0
    {
      block := new char[size](_ => ' ');
      point, gap, egap, ebuf := 0, 0, size, size;
      text, cursor := [], 0;
    }

    /** gb_reset_buf */
    method Reset()
      requires Valid()
      modifies this, block
      ensures Valid() && block == old(block) && ebuf == old(ebuf)
      ensures text == [] && cursor == 0
    {
      forall i | 0 <= i < ebuf {
        block[i] := ' ';
      }
      point, gap, egap := 0, 0, ebuf;
      text, cursor := [], 0;
    }

    /** gb_data_size */
    function DataSize(): (n: nat)
      requires Valid()
      reads this, block
      ensures n == |text|
    {
      ebuf - (egap - gap)
    }

    /** gb_eof: the test on pointers says the cursor is behind the last character. */
    predicate AtEnd()
      requires Valid()
      reads this, block
      ensures AtEnd() <==> cursor == |text|
    {
      if point == gap then egap == ebuf else point == ebuf
    }

    /** gb_right_data_size: the bytes behind the hole, which are the bytes behind the cursor
        exactly when the cursor is at the hole or at the end. */
    function RightDataSize(): (n: nat)
      requires Valid()
      reads this, block
      ensures n == |text| - cursor <==> cursor == gap || cursor == |text|
    {
      if AtEnd() then 0 else ebuf - egap
    }

    /** gb_point_offset.  The test excludes the end of the hole, so a point standing there is
        reported too far right unless the hole is empty. */
    function PointOffset(): (n: nat)
      requires Valid()
      reads this, block
      ensures n == cursor <==> point != egap || gap == egap
    {
      if point > egap then point - (egap - gap) else point
    }

    /** gb_set_point for an index into the text. */
    method SetPoint(idx: nat)
      requires Valid() && idx <= |text|
      modifies `point, `cursor
      ensures Valid() && cursor == idx
      ensures PointOffset() == idx
    {
      point := idx;
      if point > gap {
        point := point + (egap - gap);
      }
      cursor := idx;
    }

    /** gb_set_point with index -1. */
    method SetPointEnd()
      requires Valid()
      modifies `point, `cursor
      ensures Valid() && cursor == |text|
    {
      point := ebuf;
      cursor := |text|;
    }

    /** gb_move_right */
    method MoveRight()
      requires Valid()
      modifies `point, `cursor
      ensures Valid() && cursor == if old(cursor) == |text| then |text| else old(cursor) + 1
    {
      if point == gap {
        point := egap;
      }
      point := if point + 1 > ebuf then ebuf else point + 1;
      cursor := if cursor == |text| then cursor else cursor + 1;
    }

    /** gb_move_left */
    method MoveLeft()
      requires Valid()
      modifies `point, `cursor
      ensures Valid() && cursor == if old(cursor) == 0 then 0 else old(cursor) - 1
    {
      if point == egap {
        point := gap;
      }
      point := if point - 1 < 0 then 0 else point - 1;
      cursor := if cursor == 0 then 0 else cursor - 1;
    }

    /** gb_move_gap_to_point.  The original's last branch, for a point strictly inside the
        hole, is dead. */
    method MoveGapToPoint()
      requires Valid()
      modifies `point, `gap, `egap, block
      ensures Valid()
      ensures point == gap && egap - gap == old(egap - gap)
    {
      if point == gap {
        return;
      }
      if point == egap {
        point := gap;
      } else if point < gap {
        var cnt := gap - point;
        Memmove(block, egap - cnt, point, cnt);
        egap := egap - cnt;
        gap := point;
      } else if point > egap {
        var cnt := point - egap;
        Memmove(block, gap, egap, cnt);
        gap := gap + cnt;
        egap := point;
        point := gap;
      } else {
        assert false;
      }
    }

    /** gb_expand_buf: reallocates, and the bytes beyond the used part are arbitrary. */
    method ExpandBuf(more: nat)
      requires Valid()
      modifies `block
      ensures Valid()
      ensures if more > 0 then fresh(block) && block.Length == ebuf + more + DEFAULT_GAP_SIZE else block == old(block)
    {
      if ebuf + more > ebuf {
        var size := ebuf + more + DEFAULT_GAP_SIZE;
        block := Realloc(block, size);
      }
    }

    /** gb_expand_gap.  The text always survives in place, but point is not moved along with
        the bytes behind the hole: the cursor survives exactly when nothing had to grow or
        point was not behind the hole's start. */
    method ExpandGap(want: nat)
      requires Valid()
      modifies `block, `egap, `ebuf, block
      ensures Holds()
      ensures block == old(block) || fresh(block)
      ensures egap - gap >= want
      ensures Valid() <==> old(point <= gap || want <= egap - gap)
    {
      if want > egap - gap {
        var size := want + DEFAULT_GAP_SIZE;
        ExpandBuf(size);
        Memmove(block, egap + size, egap, ebuf - egap);
        egap := egap + size;
        ebuf := ebuf + size;
      }
    }

    /** The growing branch of gb_put: one more used byte, whose content is still arbitrary. */
    method GrowByOne()
      requires Valid()
      modifies `block, `ebuf, `text
      ensures Valid() && fresh(block) && ebuf == old(ebuf) + 1
      ensures |text| == |old(text)| + 1 && text[..|old(text)|] == old(text)
    {
      ExpandBuf(1);
      ebuf := ebuf + 1;
      text := text + [block[ebuf - 1]];
    }

    method Overwrite(c: char)
      requires Valid() && (point < gap || egap <= point < ebuf)
      modifies `text, block
      ensures Valid() && cursor < |text| && text == old(text)[cursor := c]
    {
      block[point] := c;
      text := text[cursor := c];
    }

    /** gb_put: overwrite the character at point, or append at the end of the text. */
    method Put(c: char)
      requires Valid()
      modifies this, block
      ensures Valid() && (block == old(block) || fresh(block))
      ensures cursor == old(cursor) <= |old(text)| && text == Overwritten(old(text), cursor, c)
    {
      if point == gap {
        point := egap;
      }
      if point == ebuf {
        GrowByOne();
      }
      Overwrite(c);
    }

    /** gb_putc.  It consumes a byte of the hole without looking whether there is one: the
        store is well formed afterwards exactly when the hole was not empty. */
    method Putc(c: char)
      requires Valid()
      modifies this, block
      ensures block == old(block) || fresh(block)
      ensures text == Spliced(old(text), old(cursor), [c]) && cursor == old(cursor) + 1
      ensures Valid() <==> old(gap < egap)
      ensures old(gap < egap) ==> point == gap && block == old(block) && egap - gap == old(egap - gap) - 1
    {
      MoveGapToPoint();
      if point == ebuf {
        ExpandBuf(1);
        ebuf := ebuf + 1;
      }
      block[gap] := c;
      gap := gap + 1;
      point := point + 1;
      text, cursor := Spliced(text, cursor, [c]), cursor + 1;
    }

    /** gb_insert */
    method Insert(c: char)
      requires Valid()
      modifies this, block
      ensures Valid() && (block == old(block) || fresh(block))
      ensures text == Spliced(old(text), old(cursor), [c]) && cursor == old(cursor) + 1
    {
      if point != gap {
        MoveGapToPoint();
      }
      if gap == egap {
        ExpandGap(1);
      }
      Putc(c);
    }

    /** gb_del.  Nothing stops the hole from swallowing more than there is: the store is well
        formed afterwards exactly when the caller asked for no more than stands right of the
        cursor. */
    method Del(cnt: nat)
      requires Valid()
      modifies `point, `gap, `egap, `text, block
      ensures Valid() <==> cursor + cnt <= |old(text)|
      ensures Valid() ==> text == Without(old(text), cursor, cnt)
    {
      if point != gap {
        MoveGapToPoint();
      }
      if egap + cnt <= ebuf {
        text := Without(text, cursor, cnt);
      }
      egap := egap + cnt;
    }

    /** gb_str_insert: `size` bytes of str, or the whole C string when size is 0. */
    method StrInsert(str: seq<char>, size: nat) returns (len: nat)
      requires Valid()
      requires if size == 0 then '\0' in str else size <= |str|
      modifies this, block
      ensures Valid() && (block == old(block) || fresh(block))
      ensures len == if size == 0 then Strlen(str) else size
      ensures text == Spliced(old(text), old(cursor), str[..len]) && cursor == old(cursor) + len
    {
      len := if size == 0 then Strlen(str) else size;
      SplicedTwice(text, cursor, [], []);
      if len == 0 {
        return;
      }
      MoveGapToPoint();
      if len > egap - gap {
        ExpandGap(len);
      }
      PutAll(str[..len]);
    }

    /** The loop of gb_str_insert. */
    method PutAll(str: seq<char>)
      requires Valid() && point == gap && |str| <= egap - gap
      modifies this, block
      ensures Valid() && block == old(block)
      ensures text == Spliced(old(text), old(cursor), str) && cursor == old(cursor) + |str|
    {
      ghost var text0, cursor0, store := text, cursor, block;
      SplicedTwice(text0, cursor0, [], []);
      var k := 0;
      while k < |str|
        invariant k <= |str|
        invariant Valid() && block == store
        invariant point == gap && |str| - k <= egap - gap
        invariant text == Spliced(text0, cursor0, str[..k]) && cursor == cursor0 + k
      {
        Putc(str[k]);
        SplicedTwice(text0, cursor0, str[..k], [str[k]]);
        assert str[..k] + [str[k]] == str[..k + 1];
        k := k + 1;
      }
      assert str[..k] == str;
    }

    /** gb_copy_to_buf.  The size only decides between everything and nothing: the whole text
        is copied for every size but 0, so no more bytes are copied than asked for exactly
        when the size is 0 or covers the text. */
    method CopyToBuf(dst: array<char>, size: nat) returns (copied: nat)
      requires Valid() && dst != block
      requires dst.Length > if size == 0 then 0 else |text|
      modifies dst
      ensures copied == if size == 0 then 0 else |text|
      ensures dst[..copied] == text[..copied] && dst[copied] == '\0'
      ensures forall i :: copied < i < dst.Length ==> dst[i] == old(dst[i])
      ensures copied <= size <==> size == 0 || size >= |text|
    {
      var n := if size < DataSize() then size else DataSize();
      copied := 0;
      if n > 0 {
        var left, right := gap, ebuf - egap;
        Memcpy(dst, 0, block, 0, left);
        Memcpy(dst, left, block, egap, right);
        copied := left + right;
      }
      dst[copied] := '\0';
    }

    /** Ctrl-K (pktgen/lib/cli/cli_vt100.c): cut everything right of the cursor. */
    method KillToEnd()
      requires Valid()
      modifies this, block
      ensures Valid() && block == old(block)
      ensures cursor == old(cursor) <= |old(text)| && text == old(text)[..cursor]
    {
      MoveGapToPoint();
      Del(RightDataSize());
    }

    method Do(op: Op)
      requires Valid() && Legal(op, View())
      modifies this, block
      ensures Valid() && (block == old(block) || fresh(block))
      ensures View() == Apply(op, old(View()))
    {
      match op
      case Insert(c) => Insert(c);
      case InsertString(s) =>
        if s == [] {
          SplicedTwice(text, cursor, [], []);
        } else {
          var n := StrInsert(s, |s|);
          assert s[..n] == s;
        }
      case Put(c) => Put(c);
      case Delete(n) => Del(n);
      case MoveLeft => MoveLeft();
      case MoveRight => MoveRight();
      case SetPoint(i) => SetPoint(i);
      case MoveToEnd => SetPointEnd();
    }

    /** Every run of operations leaves the text and cursor the plain editor would have. */
    method DoAll(ops: seq<Op>)
      requires Valid() && LegalRun(ops, View())
      modifies this, block
      ensures Valid() && (block == old(block) || fresh(block))
      ensures View() == Run(ops, old(View()))
    {
      var k := 0;
      while k < |ops|
        invariant k <= |ops|
        invariant Valid() && (block == old(block) || fresh(block))
        invariant LegalRun(ops[k..], View())
        invariant Run(ops[k..], View()) == Run(ops, old(View()))
      {
        assert ops[k..][1..] == ops[k + 1..];
        Do(ops[k]);
        k := k + 1;
      }
    }
  }
}
