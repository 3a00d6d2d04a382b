/** The lines a log keeps in memory: a linked list with a tail pointer, the oldest dropped first. */
module LogLines {
  import opened CTypes

  const NEWLINE: Byte := 10

  class LogEntry {
    const line: CString
    const len: nat
    var next: LogEntry?

    constructor (line: CString)
      ensures this.line == line && len == |line| + 1 && next == null
    {
      this.line, len, next := line, |line| + 1, null;
    }
  }

  /** The reference: the last `n` of a sequence. */
  function KeepLast<T>(s: seq<T>, n: nat): seq<T> { if |s| <= n then s else s[|s| - n..] }

  /** It is as long as it may be, and ends where the sequence ends. */
  lemma KeepLastIs<T>(s: seq<T>, n: nat)
    ensures |KeepLast(s, n)| == if n < |s| then n else |s|
    ensures exists dropped :: s == dropped + KeepLast(s, n)
  {
    var k := if n < |s| then |s| - n else 0;
    assert s == s[..k] + KeepLast(s, n);
  }

  /** The room the lines take, each with its terminator. */
  function Total(lines: seq<CString>): nat {
    if lines == [] then 0 else |lines[0]| + 1 + Total(lines[1..])
  }

  function Concat(lines: seq<CString>): Bytes {
    if lines == [] then [] else lines[0] + Concat(lines[1..])
  }

  lemma {:induction false} TotalAppend(lines: seq<CString>, l: CString)
    ensures Total(lines + [l]) == Total(lines) + |l| + 1
  {
    if lines == [] {
      assert lines + [l] == [l] && Total([l][1..]) == 0;
    } else {
      assert (lines + [l])[1..] == lines[1..] + [l];
      TotalAppend(lines[1..], l);
    }
  }

  /** `log_contents` counts one byte per line more than there is text. */
  lemma {:induction false} TotalConcat(lines: seq<CString>)
    ensures Total(lines) == |Concat(lines)| + |lines|
  {
    if lines != [] { TotalConcat(lines[1..]); }
  }

  /** `list` is what the `next` pointers from `head` lead through, and its entries hold `lines`. */
  ghost predicate Chained(list: seq<LogEntry>, head: LogEntry?, lines: seq<CString>)
    reads list
  {
    && |list| == |lines|
    && head == (if list == [] then null else list[0])
    && (forall i {:trigger list[i].next} :: 0 <= i < |list| ==>
          list[i].next == if i + 1 < |list| then list[i + 1] else null)
    && (forall i, j :: 0 <= i < j < |list| ==> list[i] != list[j])
    && (forall i :: 0 <= i < |list| ==> list[i].line == lines[i] && list[i].len == |lines[i]| + 1)
  }

  /** Without its first entry a list is still a list. */
  lemma ChainedTail(list: seq<LogEntry>, head: LogEntry?, lines: seq<CString>)
    requires Chained(list, head, lines) && list != []
    ensures Chained(list[1..], head.next, lines[1..]) && head.len == |lines[0]| + 1
  {
    var l := list[1..];
    assert head == list[0] && (|list| > 1 ==> l[0] == list[1]);
    forall i | 0 <= i < |l| ensures l[i].next == if i + 1 < |l| then l[i + 1] else null {
      assert l[i] == list[i + 1] && (i + 1 < |l| ==> l[i + 1] == list[i + 2]);
      assert list[i + 1].next == if i + 2 < |list| then list[i + 2] else null;
    }
  }

  predicate EndsLine(l: CString) { l != [] && l[|l| - 1] == NEWLINE }

  ghost predicate Terminated(lines: seq<CString>) { forall i :: 0 <= i < |lines| ==> EndsLine(lines[i]) }

  lemma TerminatedSuffix(lines: seq<CString>, k: nat)
    requires Terminated(lines) && k <= |lines|
    ensures Terminated(lines[k..])
  {
    assert forall i :: 0 <= i < |lines[k..]| ==> lines[k..][i] == lines[k + i];
  }

  lemma TerminatedAppend(lines: seq<CString>, l: CString)
    requires Terminated(lines) && EndsLine(l)
    ensures Terminated(lines + [l])
  {}

  lemma SuffixStep<T>(s: seq<T>, k: nat)
    requires k < |s|
    ensures s[k..] != [] && s[k..][1..] == s[k + 1..]
  {}

  class Log {
    var head: LogEntry?
    /** The entry whose `next` is to be set next; null stands for the head pointer itself. */
    var tail: LogEntry?
    var keepEntries: nat
    var entries: nat
    var total: nat
    ghost var list: seq<LogEntry>
    /** The lines kept, oldest first, and all that went to the log file. */
    ghost var lines: seq<CString>
    ghost var file: Bytes

    ghost predicate Valid()
      reads this, list
    {
      && Chained(list, head, lines)
      && entries == |lines| <= keepEntries && total == Total(lines)
      && Terminated(lines)
    }

    /** The tail pointer is where the next entry has to go. */
    ghost predicate TailOk()
      reads this
    {
      tail == if list == [] then null else list[|list| - 1]
    }

    constructor ()
      ensures Valid() && TailOk() && lines == [] && keepEntries == 0 && file == []
    {
      head, tail, keepEntries, entries, total := null, null, 0, 0, 0;
      list, lines, file := [], [], [];
    }

    /** Takes the oldest entry off the list; the tail pointer is left as it is. */
    method DropHead()
      requires Chained(list, head, lines) && list != [] && total == Total(lines)
      modifies this`head, this`total, this`list, this`lines
      ensures Chained(list, head, lines) && list == old(list)[1..] && lines == old(lines)[1..] && total == Total(lines)
    {
      ChainedTail(list, head, lines);
      total := total - head.len;
      head := head.next;
      list, lines := list[1..], lines[1..];
    }

    /** Links a new entry in at the tail pointer. */
    method Append(entry: LogEntry)
      requires Chained(list, head, lines) && TailOk() && total == Total(lines)
      requires entry !in list && entry.next == null && entry.len == |entry.line| + 1
      modifies this, list
      ensures Chained(list, head, lines) && TailOk() && total == Total(lines)
      ensures list == old(list) + [entry] && lines == old(lines) + [entry.line]
      ensures keepEntries == old(keepEntries) && entries == old(entries) && file == old(file)
    {
      TotalAppend(lines, entry.line);
      total := total + entry.len;
      if tail == null {
        head := entry;
      } else {
        tail.next := entry;
      }
      tail := entry;
      list, lines := list + [entry], lines + [entry.line];
    }

    /** `create_log_entry`: to the file, and to the end of the list if any lines are kept. */
    method CreateLogEntry(pre: CString, line: CString) returns (ret: int)
      requires Valid() && (keepEntries > 0 ==> TailOk())
      modifies this, list
      ensures Valid() && file == old(file) + (pre + line + [10]) && keepEntries == old(keepEntries)
      ensures keepEntries == 0 ==>
        lines == old(lines) && list == old(list) && tail == old(tail) && ret == |pre| + |line| + 1
      ensures keepEntries > 0 ==>
        && TailOk() && ret == |pre| + |line| + 2
        && lines == KeepLast(old(lines) + [pre + line + [10]], keepEntries) && lines[|lines| - 1] == pre + line + [10]
        && forall e :: e in list ==> e in old(list) || fresh(e)
    {
      var text := pre + line + [NEWLINE];
      file := file + text;
      if keepEntries == 0 {
        return |text|;
      }
      ret := KeepLine(text);
    }

    /** One more line is kept, and one less if there were as many as are to be kept. */
    method KeepLine(text: CString) returns (ret: nat)
      requires Valid() && keepEntries > 0 && TailOk() && EndsLine(text)
      modifies this, list
      ensures Valid() && TailOk() && file == old(file) && keepEntries == old(keepEntries) && ret == |text| + 1
      ensures lines == KeepLast(old(lines) + [text], keepEntries)
      ensures forall e :: e in list ==> e in old(list) || fresh(e)
    {
      var entry := new LogEntry(text);
      TerminatedAppend(lines, text);
      Append(entry);
      CountLine();
      ret := entry.len;
    }

    /** A line has come in: it is counted, or the oldest goes. */
    method CountLine()
      requires Chained(list, head, lines) && TailOk() && total == Total(lines) && Terminated(lines)
      requires entries + 1 == |lines| && entries <= keepEntries && keepEntries > 0
      modifies this`head, this`total, this`list, this`lines, this`entries
      ensures Valid() && TailOk() && lines == KeepLast(old(lines), keepEntries)
      ensures forall e :: e in list ==> e in old(list)
    {
      TerminatedSuffix(lines, 1);
      if entries >= keepEntries {
        DropHead();
      } else {
        entries := entries + 1;
      }
    }

    /**
    `log_set_lines_kept`: drops the oldest lines until no more than `count` are left.  The tail
    pointer stays good unless this empties a list that was not empty.
    */
    method SetLinesKept(count: nat)
      requires Valid()
      modifies this`keepEntries, this`head, this`total, this`entries, this`list, this`lines
      ensures Valid() && keepEntries == count && lines == KeepLast(old(lines), count)
      ensures forall e :: e in list ==> e in old(list)
      ensures old(TailOk()) ==> (TailOk() <==> count > 0 || old(lines) == [])
      ensures old(lines) == [] ==> (TailOk() <==> old(TailOk()))
    {
      keepEntries := count;
      ghost var k := DropTo(count);
      TerminatedSuffix(old(lines), k);
    }

    method DropTo(count: nat) returns (ghost k: nat)
      requires Chained(list, head, lines) && entries == |lines| && total == Total(lines)
      modifies this`head, this`total, this`entries, this`list, this`lines
      ensures Chained(list, head, lines) && entries == |lines| && total == Total(lines)
      ensures k == if |old(lines)| <= count then 0 else |old(lines)| - count
      ensures list == old(list)[k..] && lines == old(lines)[k..]
    {
      k := 0;
      while entries > count
        invariant k <= |old(list)| == |old(lines)| && list == old(list)[k..] && lines == old(lines)[k..]
        invariant Chained(list, head, lines) && entries == |lines| && total == Total(lines)
        invariant k > 0 ==> entries >= count
      {
        SuffixStep(old(list), k);
        SuffixStep(old(lines), k);
        DropHead();
        entries := entries - 1;
        k := k + 1;
      }
    }
  }

  // ---------------------------------------------------------------- reading the lines back

  lemma {:induction false} ConcatSplit(lines: seq<CString>, i: nat)
    requires i <= |lines|
    ensures Concat(lines) == Concat(lines[..i]) + Concat(lines[i..])
  {
    if i == 0 {
      assert lines[..0] == [] && lines[0..] == lines;
    } else {
      ConcatSplit(lines[1..], i - 1);
      var a, b := lines[1..][..i - 1], lines[i..];
      assert lines[..i][1..] == a && lines[1..][i - 1..] == b;
      assert lines[0] + (Concat(a) + Concat(b)) == (lines[0] + Concat(a)) + Concat(b);
    }
  }

  lemma {:induction false} ConcatNext(lines: seq<CString>, i: nat)
    requires i < |lines|
    ensures Concat(lines[..i + 1]) == Concat(lines[..i]) + lines[i]
    ensures |Concat(lines[..i])| + |lines[i]| <= |Concat(lines)|
  {
    ConcatSplit(lines[..i + 1], i);
    ConcatSplit(lines, i + 1);
    var one := lines[..i + 1][i..];
    assert lines[..i + 1][..i] == lines[..i] && one == [lines[i]] && Concat(one[1..]) == [];
    assert Concat(one) == lines[i] + [] == lines[i];
  }

  /** `snprintf` of "%s": what fits, and a terminator; returns the length of the string in any case. */
  method PrintString(buf: array<Byte>, p: nat, remain: nat, s: CString) returns (len: nat)
    requires 1 <= remain && p + remain == buf.Length
    modifies buf
    ensures len == |s|
    ensures var n := if |s| < remain then |s| else remain - 1;
      buf[..p + n] == old(buf[..p]) + s[..n] && buf[p + n] == 0
  {
    var n := if |s| < remain then |s| else remain - 1;
    for i := 0 to n
      invariant buf[..p + i] == old(buf[..p]) + s[..i]
    {
      buf[p + i] := s[i];
      assert s[..i + 1] == s[..i] + [s[i]];
      assert buf[..p + i + 1] == buf[..p + i] + [s[i]];
    }
    buf[p + n] := 0;
    assert buf[..p + n] == old(buf[..p]) + s[..n];
    len := |s|;
  }

  /**
  `log_contents`: the lines one after the other, terminated, in a buffer they always fit; the length
  it reports is larger than the text by one for every line.
  */
  method LogContents(log: Log) returns (contents: array<Byte>, len: nat, ghost n: nat)
    requires log.Valid()
    ensures fresh(contents) && n < contents.Length && contents[..n] == Concat(log.lines) && contents[n] == 0
    ensures len == n + |log.lines|
  {
    ghost var lines, list := log.lines, log.list;
    TotalConcat(lines);
    var remain := log.total + 1;
    contents := new Byte[remain];
    contents[0] := 0;
    len := log.total;
    var entry, ptr := log.head, 0;
    ghost var i := 0;
    while entry != null
      invariant fresh(contents) && i <= |list| && entry == (if i < |list| then list[i] else null)
      invariant ptr == |Concat(lines[..i])| && ptr + remain == contents.Length == |Concat(lines)| + |lines| + 1
      invariant ptr <= |Concat(lines)| && contents[..ptr] == Concat(lines[..i]) && contents[ptr] == 0
      decreases |list| - i
    {
      ConcatNext(lines, i);
      assert list[i].line == lines[i];
      var l := PrintString(contents, ptr, remain, entry.line);
      if l > 0 {
        ptr := ptr + l;
        remain := remain - l;
      }
      assert list[i].next == if i + 1 < |list| then list[i + 1] else null;
      entry := entry.next;
      i := i + 1;
    }
    assert lines[..i] == lines;
    n := ptr;
  }

  /** A line without the newline at its end. */
  function Chomp(l: CString): CString {
    if EndsLine(l) then
      assert forall i :: 0 <= i < |l| - 1 ==> l[..|l| - 1][i] == l[i];
      l[..|l| - 1]
    else l
  }

  /** `log_contents_array`: the lines without their newlines, then NULL. */
  method LogContentsArray(log: Log) returns (ret: array<Option<CString>>)
    requires log.Valid()
    ensures fresh(ret) && ret.Length == |log.lines| + 1 && ret[|log.lines|] == None
    ensures forall i :: 0 <= i < |log.lines| ==> ret[i].Some? && ret[i].value + [10] == log.lines[i]
  {
    ret := new Option<CString>[log.entries + 1](_ => None);
    var i, entry := 0, log.head;
    while entry != null
      invariant fresh(ret) && i <= |log.list| && entry == (if i < |log.list| then log.list[i] else null)
      invariant forall j :: 0 <= j < i ==> ret[j] == Some(Chomp(log.lines[j]))
      decreases |log.list| - i
    {
      assert log.list[i].line == log.lines[i];
      ret[i] := Some(Chomp(entry.line));
      assert log.list[i].next == if i + 1 < |log.list| then log.list[i + 1] else null;
      entry := entry.next;
      i := i + 1;
    }
    ret[i] := None;
    forall j | 0 <= j < |log.lines| ensures ret[j].Some? && ret[j].value + [NEWLINE] == log.lines[j] {
      assert EndsLine(log.lines[j]);
    }
  }

  // ---------------------------------------------------------------- whole runs

  datatype LogOp = Write(pre: CString, line: CString) | Keep(count: nat)

  /** The reference: a queue of lines and how many of them to keep, the oldest dropped first. */
  datatype Queue = Queue(lines: seq<CString>, keep: nat)

  function After(q: Queue, op: LogOp): Queue {
    match op
    case Write(pre, line) =>
      if q.keep == 0 then q else Queue(KeepLast(q.lines + [pre + line + [10]], q.keep), q.keep)
    case Keep(count) => Queue(KeepLast(q.lines, count), count)
  }

  function AfterAll(q: Queue, ops: seq<LogOp>): Queue
    decreases |ops|
  {
    if ops == [] then q else AfterAll(After(q, ops[0]), ops[1..])
  }

  /** Whether the tail pointer is good after an operation: emptying a list that holds something makes it stale. */
  predicate GoodAfter(q: Queue, good: bool, op: LogOp) {
    good && (op == Keep(0) ==> q.lines == [])
  }

  predicate GoodAfterAll(q: Queue, good: bool, ops: seq<LogOp>)
    decreases |ops|
  {
    if ops == [] then good else GoodAfterAll(After(q, ops[0]), GoodAfter(q, good, ops[0]), ops[1..])
  }

  /** No line is kept with a stale tail pointer. */
  predicate Safe(q: Queue, good: bool, ops: seq<LogOp>)
    decreases |ops|
  {
    ops == [] ||
    ((ops[0].Write? && q.keep > 0 ==> good) && Safe(After(q, ops[0]), GoodAfter(q, good, ops[0]), ops[1..]))
  }

  method Apply(log: Log, op: LogOp)
    requires log.Valid() && (log.TailOk() || log.lines == []) && (op.Write? && log.keepEntries > 0 ==> log.TailOk())
    modifies log, log.list
    ensures log.Valid() && (log.TailOk() || log.lines == [])
    ensures Queue(log.lines, log.keepEntries) == After(old(Queue(log.lines, log.keepEntries)), op)
    ensures log.TailOk() <==> GoodAfter(old(Queue(log.lines, log.keepEntries)), old(log.TailOk()), op)
    ensures forall e :: e in log.list ==> e in old(log.list) || fresh(e)
  {
    match op
    case Write(pre, line) => var _ := log.CreateLogEntry(pre, line);
    case Keep(count) => log.SetLinesKept(count);
  }

  /**
  Over any run of writes and changes of the number of lines to keep in which no line is kept with a
  stale tail pointer, the list is the reference queue.  The tail pointer is at its end unless the
  list has been emptied while it held something.
  */
  method Run(log: Log, ops: seq<LogOp>)
    requires log.Valid() && (log.TailOk() || log.lines == [])
    requires Safe(Queue(log.lines, log.keepEntries), log.TailOk(), ops)
    modifies log, log.list
    ensures log.Valid()
    ensures Queue(log.lines, log.keepEntries) == AfterAll(old(Queue(log.lines, log.keepEntries)), ops)
    ensures log.TailOk() <==> GoodAfterAll(old(Queue(log.lines, log.keepEntries)), old(log.TailOk()), ops)
  {
    ghost var q := Queue(log.lines, log.keepEntries);
    ghost var all, good := AfterAll(q, ops), GoodAfterAll(q, log.TailOk(), ops);
    assert ops[0..] == ops;
    for n := 0 to |ops|
      invariant log.Valid() && (log.TailOk() || log.lines == [])
      invariant q == Queue(log.lines, log.keepEntries) && Safe(q, log.TailOk(), ops[n..])
      invariant all == AfterAll(q, ops[n..]) && good == GoodAfterAll(q, log.TailOk(), ops[n..])
      invariant forall e :: e in log.list ==> e in old(log.list) || fresh(e)
    {
      assert ops[n..][0] == ops[n] && ops[n..][1..] == ops[n + 1..];
      assert forall i :: 0 <= i < |log.list| ==> log.list[i] in log.list;
      Apply(log, ops[n]);
      q := Queue(log.lines, log.keepEntries);
    }
  }

  /** Emptying the list leaves the tail pointer stale: a later line would be linked to a freed entry. */
  method StaleTail(line: CString) returns (log: Log)
    ensures fresh(log) && log.Valid() && log.lines == [] && !log.TailOk()
  {
    log := new Log();
    log.SetLinesKept(1);
    var _ := log.CreateLogEntry([], line);
    log.SetLinesKept(0);
  }
}
