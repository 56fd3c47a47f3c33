/** The log history (pktgen/app/pktgen-log.c): a ring of messages and its display. */
module LogRing {

  const HISTORY: nat := 64         // LOG_HISTORY
  const MAX_PAGE_LINES: nat := 28

  /** Number of line breaks in a message. */
  function Breaks(s: string): nat {
    if s == "" then 0 else Breaks(s[..|s| - 1]) + if s[|s| - 1] == '\n' then 1 else 0
  }

  /** Number of lines the messages take up on a page. */
  function PageLines(messages: seq<string>): nat {
    if messages == [] then 0 else 1 + Breaks(messages[0]) + PageLines(messages[1..])
  }

  /** The messages from slot tail up to, but not including, slot head. */
  function Ring(slots: seq<string>, tail: nat, head: nat): seq<string>
    requires |slots| == HISTORY && tail < HISTORY && head < HISTORY
    decreases if tail <= head then head - tail else head + HISTORY - tail
  {
    if tail == head then [] else [slots[tail]] + Ring(slots, (tail + 1) % HISTORY, head)
  }

  /** How many of n messages the ring still holds: one slot always stays free. */
  function Kept(n: nat): nat {
    if n < HISTORY then n else HISTORY - 1
  }

  /** The last k of the messages. */
  function Last(messages: seq<string>, k: nat): seq<string>
    requires k <= |messages|
  {
    messages[|messages| - k..]
  }

  /** The slots hold the last messages of the history, message number j in slot j modulo their number. */
  ghost predicate Holds(slots: seq<string>, tail: nat, head: nat, history: seq<string>) {
    |slots| == HISTORY && head == |history| % HISTORY && tail == (|history| - Kept(|history|)) % HISTORY &&
    forall j :: |history| - Kept(|history|) <= j < |history| ==> slots[j % HISTORY] == history[j]
  }

  lemma NextSlot(a: nat)
    ensures (a + 1) % HISTORY == if a % HISTORY + 1 == HISTORY then 0 else a % HISTORY + 1
    ensures (a % HISTORY + 1) % HISTORY == (a + 1) % HISTORY
  {
  }

  /** Slots of messages less than a ring apart differ. */
  lemma OtherSlot(a: nat, b: nat)
    requires a < b < a + HISTORY
    ensures a % HISTORY != b % HISTORY
  {
    var q, p := a / HISTORY, b / HISTORY;
    assert a == HISTORY * q + a % HISTORY && b == HISTORY * p + b % HISTORY;
  }

  /** After n messages the ring is exactly the last min(n, 63) of them, in order. */
  lemma RingIsLast(slots: seq<string>, tail: nat, head: nat, history: seq<string>)
    requires Holds(slots, tail, head, history)
    ensures Ring(slots, tail, head) == Last(history, Kept(|history|))
  {
    RingFrom(slots, head, history, Kept(|history|));
  }

  lemma {:induction false} RingFrom(slots: seq<string>, head: nat, history: seq<string>, k: nat)
    requires |slots| == HISTORY && head == |history| % HISTORY && k <= Kept(|history|)
    requires forall j :: |history| - Kept(|history|) <= j < |history| ==> slots[j % HISTORY] == history[j]
    ensures Ring(slots, (|history| - k) % HISTORY, head) == Last(history, k)
  {
    if k > 0 {
      RingFrom(slots, head, history, k - 1);
      RingOneMore(slots, head, history, k);
    }
  }

  lemma RingOneMore(slots: seq<string>, head: nat, history: seq<string>, k: nat)
    requires |slots| == HISTORY && head == |history| % HISTORY && 0 < k <= Kept(|history|)
    requires slots[(|history| - k) % HISTORY] == history[|history| - k]
    requires Ring(slots, (|history| - (k - 1)) % HISTORY, head) == Last(history, k - 1)
    ensures Ring(slots, (|history| - k) % HISTORY, head) == Last(history, k)
  {
    var n := |history|;
    NextSlot(n - k);
    OtherSlot(n - k, n);
    assert Last(history, k) == [history[n - k]] + Last(history, k - 1);
  }

  lemma Overwrite(slots: seq<string>, tail: nat, head: nat, history: seq<string>, message: string)
    requires Holds(slots, tail, head, history)
    ensures head < HISTORY && tail < HISTORY
    ensures var head', n := (head + 1) % HISTORY, |history| + 1;
      head' == n % HISTORY && (if head' == tail then (tail + 1) % HISTORY else tail) == (n - Kept(n)) % HISTORY
    ensures forall j :: |history| + 1 - Kept(|history| + 1) <= j < |history| + 1 ==>
      slots[head := message][j % HISTORY] == (history + [message])[j]
  {
    var n := |history|;
    NextSlot(n);
    if n >= HISTORY - 1 {
      NextSlot(n - (HISTORY - 1));
      WrapSlot(n + 1 - HISTORY);
    } else {
      SmallSlot(n + 1);
    }
    forall j | n + 1 - Kept(n + 1) <= j < n + 1
      ensures slots[head := message][j % HISTORY] == (history + [message])[j]
    {
      if j < n {
        OtherSlot(j, n);
      }
    }
  }

  lemma WrapSlot(a: nat)
    ensures (a + HISTORY) % HISTORY == a % HISTORY
  {
  }

  lemma SmallSlot(a: nat)
    requires a < HISTORY
    ensures a % HISTORY == a && 0 % HISTORY == 0
  {
  }

  /** What a page shows: the k most recent messages, where the page is full with them but not with one
      less, unless they are all there is. */
  ghost predicate FillsPage(history: seq<string>, k: nat) {
    k <= Kept(|history|) && (k == Kept(|history|) || PageLines(Last(history, k)) >= MAX_PAGE_LINES) &&
    (k > 0 ==> PageLines(Last(history, k - 1)) < MAX_PAGE_LINES)
  }

  lemma OneMoreMessage(history: seq<string>, k: nat)
    requires k < |history|
    ensures PageLines(Last(history, k + 1)) == PageLines(Last(history, k)) + 1 + Breaks(history[|history| - k - 1])
  {
    assert Last(history, k + 1)[1..] == Last(history, k);
  }

  lemma {:induction false} LinesAtLeast(messages: seq<string>)
    ensures PageLines(messages) >= |messages|
  {
    if messages != [] {
      LinesAtLeast(messages[1..]);
    }
  }

  class Log {
    const msg: array<string>
    var head: nat                    // one beyond the most recent message
    var tail: nat                    // the oldest message
    var needRefresh: bool
    ghost var history: seq<string>   // everything ever logged

    ghost predicate Valid()
      reads this, msg
    {
      Holds(msg[..], tail, head, history)
    }

    /** pktgen_init_log. */
    constructor ()
      ensures Valid() && fresh(msg) && history == [] && !needRefresh
    {
      msg := new string[HISTORY](_ => "");
      head, tail, needRefresh, history := 0, 0, false, [];
    }

    /** The part of pktgen_log that stores a message. */
    method Store(message: string)
      requires Valid()
      modifies this, msg
      ensures Valid() && history == old(history) + [message] && needRefresh
    {
      Overwrite(msg[..], tail, head, history, message);
      ghost var slots := msg[..];
      msg[head] := message;
      assert msg[..] == slots[head := message];
      head := (head + 1) % HISTORY;
      if head == tail {
        tail := (tail + 1) % HISTORY;
      }
      needRefresh := true;
      history := history + [message];
    }

    /** pktgen_page_log: walk back from the head, then show in chronological order. */
    method Page(printLabels: bool) returns (shown: bool, page: seq<string>)
      requires Valid()
      modifies `needRefresh
      ensures Valid() && (shown <==> printLabels || old(needRefresh))
      ensures shown ==>
        !needRefresh && |page| <= MAX_PAGE_LINES && FillsPage(history, |page|) && page == Last(history, |page|)
      ensures !shown ==> !needRefresh && page == []
    {
      if !printLabels && !needRefresh {
        return false, [];
      }
      var lines := new string[MAX_PAGE_LINES];
      var currLine := Collect(lines);
      page := Show(lines, currLine);
      needRefresh := false;
      shown := true;
    }

    /** The walk back: the most recent message first. */
    method Collect(lines: array<string>) returns (currLine: nat)
      requires Valid() && lines.Length == MAX_PAGE_LINES && lines != msg
      modifies lines
      ensures FillsPage(history, currLine) && currLine <= MAX_PAGE_LINES
      ensures forall i :: 0 <= i < currLine ==> lines[i] == history[|history| - 1 - i]
    {
      hide PageLines, Last;
      ghost var n := |history|;
      NoLines(history);
      currLine := 0;
      var outputLines: nat, currMsg: nat := 0, head;
      while currMsg != tail && outputLines < MAX_PAGE_LINES
        invariant currLine <= Kept(n) && currMsg == (n - currLine) % HISTORY
        invariant outputLines == PageLines(Last(history, currLine)) && currLine <= MAX_PAGE_LINES
        invariant currLine > 0 ==> PageLines(Last(history, currLine - 1)) < MAX_PAGE_LINES
        invariant forall i :: 0 <= i < currLine ==> lines[i] == history[n - 1 - i]
        decreases Kept(n) - currLine
      {
        StepBack(n, currLine);
        AtLeastOneEach(history, currLine);
        OneMoreMessage(history, currLine);
        currMsg := (currMsg + HISTORY - 1) % HISTORY;
        assert msg[..][currMsg] == history[n - 1 - currLine];
        lines[currLine] := msg[currMsg];
        var breaks := CountBreaks(lines[currLine]);
        outputLines := outputLines + breaks + 1;
        currLine := currLine + 1;
      }
      StopsAtTail(n, currLine);
    }

    /** The display loop: from the last line collected back to the first. */
    method Show(lines: array<string>, count: nat) returns (page: seq<string>)
      requires count <= lines.Length && count <= |history|
      requires forall i :: 0 <= i < count ==> lines[i] == history[|history| - 1 - i]
      ensures page == Last(history, count)
    {
      page := [];
      var currLine := count - 1;
      while currLine >= 0
        invariant -1 <= currLine < count && |page| == count - 1 - currLine
        invariant forall i :: 0 <= i < |page| ==> page[i] == history[|history| - count + i]
        decreases currLine
      {
        page := page + [lines[currLine]];
        currLine := currLine - 1;
      }
    }

    /** The inner loop over the characters of a message. */
    method CountBreaks(line: string) returns (breaks: nat)
      ensures breaks == Breaks(line)
    {
      breaks := 0;
      var currChar := 0;
      while currChar < |line|
        invariant currChar <= |line| && breaks == Breaks(line[..currChar])
      {
        assert line[..currChar + 1][..currChar] == line[..currChar];
        if line[currChar] == '\n' {
          breaks := breaks + 1;
        }
        currChar := currChar + 1;
      }
      assert line[..currChar] == line;
    }
  }

  lemma NoLines(history: seq<string>)
    ensures PageLines(Last(history, 0)) == 0
  {
  }

  lemma AtLeastOneEach(history: seq<string>, k: nat)
    requires k <= |history|
    ensures PageLines(Last(history, k)) >= k
  {
    LinesAtLeast(Last(history, k));
  }

  lemma StepBack(n: nat, k: nat)
    requires k <= Kept(n) && (n - k) % HISTORY != (n - Kept(n)) % HISTORY
    ensures k < Kept(n) && ((n - k) % HISTORY + HISTORY - 1) % HISTORY == (n - (k + 1)) % HISTORY
  {
    assert k < Kept(n);
    var r := (n - k - 1) % HISTORY;
    NextSlot(n - k - 1);
    if r + 1 == HISTORY {
      SmallSlot(HISTORY - 1);
    } else {
      WrapSlot(r);
      SmallSlot(r);
    }
  }

  lemma StopsAtTail(n: nat, k: nat)
    requires k <= Kept(n)
    ensures (n - k) % HISTORY == (n - Kept(n)) % HISTORY ==> k == Kept(n)
  {
    if k < Kept(n) {
      OtherSlot(n - Kept(n), n - k);
    }
  }
}
