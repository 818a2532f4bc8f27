/**
 Emission of the extra log text (Arch_LogInfo in pxr/base/arch/stackTrace.cpp): one walk over
 the log map, whose pieces go either into a bounded buffer or to a file descriptor.
 */
module LogInfo {

  import opened CStrings
  import opened Sequences

  /** A key of the map and its lines; the map is its entries in order. */
  datatype Entry = Entry(key: string, lines: seq<string>)

  /** A piece of text handed to the emitter. */
  datatype Chunk = Header(text: string) | Value(text: string) | Marker

  function MarkerText(): string {
    "... see full diagnostics in crash report.\n"
  }

  // ---------------------------------------------------------------- the pieces of a walk

  function TextOf(c: Chunk): string {
    if c.Marker? then MarkerText() else c.text
  }

  /** The text of a walk that nobody stops. */
  function Text(chunks: seq<Chunk>): string {
    if chunks == [] then [] else CStr(TextOf(chunks[0])) + Text(chunks[1..])
  }

  lemma {:induction false} TextConcat(a: seq<Chunk>, b: seq<Chunk>)
    ensures Text(a + b) == Text(a) + Text(b)
  {
    if a == [] {
      assert a + b == b;
    } else {
      TextConcat(a[1..], b);
      assert (a + b)[1..] == a[1..] + b;
      Associate(CStr(TextOf(a[0])), Text(a[1..]), Text(b));
    }
  }

  lemma TextOne(c: Chunk)
    ensures Text([c]) == CStr(TextOf(c))
  {
    assert [c][1..] == [];
  }

  /** A text holds no NUL, so a buffer that holds a part of it shows all of that part. */
  lemma {:induction false} TextHasNoNul(chunks: seq<Chunk>)
    ensures '\0' !in Text(chunks)
  {
    if chunks != [] {
      CStrHasNoNul(TextOf(chunks[0]));
      TextHasNoNul(chunks[1..]);
    }
  }

  function Headers(key: string): seq<Chunk> {
    [Header("\n"), Header(key), Header(":\n")]
  }

  /** A count of value lines under a limit; a limit of zero is none, and counts nothing. */
  predicate Within(maxLines: nat, n: nat) {
    maxLines == 0 || n <= maxLines
  }

  function Counted(maxLines: nat, n: nat, more: nat): nat {
    if maxLines == 0 then n else n + more
  }

  /** The pieces of one key's lines, when n value lines are already out. */
  function LineChunks(lines: seq<string>, maxLines: nat, n: nat): seq<Chunk> {
    if lines == [] then []
    else if maxLines > 0 && n >= maxLines then [Marker]
    else [Value(lines[0])] + LineChunks(lines[1..], maxLines, Counted(maxLines, n, 1))
  }

  /** The pieces of the whole map. */
  function Chunks(entries: seq<Entry>, maxLines: nat, n: nat): seq<Chunk>
    requires Within(maxLines, n)
  {
    if entries == [] then [] else
      var next := Counted(maxLines, n, |entries[0].lines|);
      Headers(entries[0].key) + LineChunks(entries[0].lines, maxLines, n)
      + if Within(maxLines, next) then Chunks(entries[1..], maxLines, next) else []
  }

  function AllLines(entries: seq<Entry>): seq<string> {
    if entries == [] then [] else entries[0].lines + AllLines(entries[1..])
  }

  /** The limit cuts nothing off. */
  predicate Whole(entries: seq<Entry>, maxLines: nat, n: nat) {
    Within(maxLines, Counted(maxLines, n, |AllLines(entries)|))
  }

  // ---------------------------------------------------------------- what a limit does

  /** The value lines among pieces. */
  function ValuesIn(chunks: seq<Chunk>): seq<string> {
    if chunks == [] then []
    else (if chunks[0].Value? then [chunks[0].text] else []) + ValuesIn(chunks[1..])
  }

  lemma {:induction false} ValuesConcat(a: seq<Chunk>, b: seq<Chunk>)
    ensures ValuesIn(a + b) == ValuesIn(a) + ValuesIn(b)
  {
    if a == [] {
      assert a + b == b;
    } else {
      ValuesConcat(a[1..], b);
      assert (a + b)[1..] == a[1..] + b;
      Associate(if a[0].Value? then [a[0].text] else [], ValuesIn(a[1..]), ValuesIn(b));
    }
  }

  lemma NoValues(key: string)
    ensures ValuesIn(Headers(key)) == []
  {
    var h := Headers(key);
    assert h[1..][1..][1..] == [];
    assert ValuesIn(h[1..][1..]) == [];
  }

  /** How many more value lines fit. */
  function Fit(maxLines: nat, n: nat, lines: nat): nat
    requires Within(maxLines, n)
  {
    if Within(maxLines, Counted(maxLines, n, lines)) then lines else maxLines - n
  }

  lemma {:induction false} LineValues(lines: seq<string>, maxLines: nat, n: nat)
    requires Within(maxLines, n)
    ensures ValuesIn(LineChunks(lines, maxLines, n)) == lines[..Fit(maxLines, n, |lines|)]
  {
    if lines == [] {
    } else if maxLines > 0 && n >= maxLines {
      assert [Marker][1..] == [];
    } else {
      LineValues(lines[1..], maxLines, Counted(maxLines, n, 1));
      var k := Fit(maxLines, n, |lines|);
      assert lines[..k] == [lines[0]] + lines[1..][..k - 1];
      assert ([Value(lines[0])] + LineChunks(lines[1..], maxLines, Counted(maxLines, n, 1)))[1..]
          == LineChunks(lines[1..], maxLines, Counted(maxLines, n, 1));
    }
  }

  lemma ValuesStep(h: seq<Chunk>, here: seq<Chunk>, later: seq<Chunk>)
    requires ValuesIn(h) == []
    ensures ValuesIn(h + here + later) == ValuesIn(here) + ValuesIn(later)
  {
    ValuesConcat(h, here);
    ValuesConcat(h + here, later);
  }

  lemma TakeConcat<T>(a: seq<T>, b: seq<T>, k: nat)
    requires k <= |a| + |b|
    ensures (a + b)[..k] == if k <= |a| then a[..k] else a + b[..k - |a|]
  {
  }

  lemma Unfold(entries: seq<Entry>, maxLines: nat, n: nat, h: seq<Chunk>, here: seq<Chunk>, later: seq<Chunk>)
    requires entries != [] && Within(maxLines, n)
    requires h == Headers(entries[0].key) && here == LineChunks(entries[0].lines, maxLines, n)
    requires var next := Counted(maxLines, n, |entries[0].lines|);
      later == if Within(maxLines, next) then Chunks(entries[1..], maxLines, next) else []
    ensures Chunks(entries, maxLines, n) == h + here + later
  {
  }

  /** The lines of one key that fit, and then those of the later ones. */
  lemma FirstLines(lines: seq<string>, more: seq<string>, maxLines: nat, n: nat)
    requires Within(maxLines, n)
    ensures var next := Counted(maxLines, n, |lines|);
      lines[..Fit(maxLines, n, |lines|)] + (if Within(maxLines, next) then more[..Fit(maxLines, next, |more|)] else [])
      == (lines + more)[..Fit(maxLines, n, |lines + more|)]
  {
    TakeConcat(lines, more, Fit(maxLines, n, |lines + more|));
  }

  /** A walk emits the map's value lines in order, up to the limit and no further. */
  lemma {:induction false} ValuesAreFirstLines(entries: seq<Entry>, maxLines: nat, n: nat)
    requires Within(maxLines, n)
    ensures ValuesIn(Chunks(entries, maxLines, n)) == AllLines(entries)[..Fit(maxLines, n, |AllLines(entries)|)]
  {
    if entries == [] {
      NoneLeft();
    } else {
      var lines, rest, h := entries[0].lines, entries[1..], Headers(entries[0].key);
      var here, next := LineChunks(lines, maxLines, n), Counted(maxLines, n, |lines|);
      var later := if Within(maxLines, next) then Chunks(rest, maxLines, next) else [];
      if Within(maxLines, next) {
        ValuesAreFirstLines(rest, maxLines, next);
      } else {
        NoneLeft();
      }
      NoValues(entries[0].key);
      LineValues(lines, maxLines, n);
      WalkValues(entries, maxLines, n, h, here, later, lines, AllLines(rest));
    }
  }

  lemma WalkValues(entries: seq<Entry>, maxLines: nat, n: nat, h: seq<Chunk>, here: seq<Chunk>, later: seq<Chunk>,
                   lines: seq<string>, more: seq<string>)
    requires entries != [] && Within(maxLines, n) && lines == entries[0].lines && more == AllLines(entries[1..])
    requires h == Headers(entries[0].key) && here == LineChunks(lines, maxLines, n) && ValuesIn(h) == []
    requires var next := Counted(maxLines, n, |lines|);
      later == if Within(maxLines, next) then Chunks(entries[1..], maxLines, next) else []
    requires ValuesIn(here) == lines[..Fit(maxLines, n, |lines|)]
    requires var next := Counted(maxLines, n, |lines|);
      ValuesIn(later) == if Within(maxLines, next) then more[..Fit(maxLines, next, |more|)] else []
    ensures ValuesIn(Chunks(entries, maxLines, n)) == AllLines(entries)[..Fit(maxLines, n, |AllLines(entries)|)]
  {
    hide Chunks, LineChunks, ValuesIn, Headers;
    Unfold(entries, maxLines, n, h, here, later);
    ValuesStep(h, here, later);
    FirstLines(lines, more, maxLines, n);
  }

  lemma NoneLeft()
    ensures ValuesIn([]) == []
  {
  }

  /** Short of the limit a key's lines are all there; past it they stop, and the marker follows. */
  lemma {:induction false} LinesAreCut(lines: seq<string>, maxLines: nat, n: nat)
    requires Within(maxLines, n)
    ensures var all, k := LineChunks(lines, 0, 0), Fit(maxLines, n, |lines|);
      |all| == |lines| && (forall i | 0 <= i < |all| :: all[i].Value?)
      && LineChunks(lines, maxLines, n) == if k == |lines| then all else all[..k] + [Marker]
  {
    if lines != [] {
      var all, k := LineChunks(lines, 0, 0), Fit(maxLines, n, |lines|);
      LinesAreCut(lines[1..], 0, 0);
      if maxLines == 0 || n < maxLines {
        LinesAreCut(lines[1..], maxLines, Counted(maxLines, n, 1));
        assert k > 0;
        assert all[..k] == [all[0]] + all[1..][..k - 1];
      }
    }
  }

  /** All of the pieces before some value line, and then the marker. */
  predicate CutAt(cut: seq<Chunk>, all: seq<Chunk>, k: nat) {
    k < |all| && all[k].Value? && cut == all[..k] + [Marker]
  }

  lemma CutInside(h: seq<Chunk>, here: seq<Chunk>, later: seq<Chunk>, k: nat)
    requires k < |here| && here[k].Value?
    ensures CutAt(h + (here[..k] + [Marker]), h + here + later, |h| + k)
  {
    assert (h + here + later)[..|h| + k] == h + here[..k];
  }

  lemma CutBeyond(before: seq<Chunk>, cut: seq<Chunk>, later: seq<Chunk>, k: nat)
    requires CutAt(cut, later, k)
    ensures CutAt(before + cut, before + later, |before| + k)
  {
    assert (before + later)[..|before| + k] == before + later[..k];
  }

  /** The limit cuts the first entry, or something after it, or nothing. */
  lemma CutStep(h: seq<Chunk>, here: seq<Chunk>, later: seq<Chunk>, cut: seq<Chunk>, inside: bool, whole: bool, at: nat)
    returns (k: nat)
    requires inside ==> at < |here| && here[at].Value?
    requires !inside ==> if whole then cut == later else CutAt(cut, later, at)
    ensures inside ==> CutAt(h + (here[..at] + [Marker]) + [], h + here + later, k)
    ensures !inside && !whole ==> CutAt(h + here + cut, h + here + later, k)
  {
    if inside {
      CutInside(h, here, later, at);
      assert h + (here[..at] + [Marker]) + [] == h + (here[..at] + [Marker]);
      k := |h| + at;
    } else if !whole {
      CutBeyond(h + here, cut, later, at);
      k := |h + here| + at;
    } else {
      k := 0;
    }
  }

  /** A limited walk is the unlimited one, or cut at a value line. */
  lemma {:induction false} LimitCuts(entries: seq<Entry>, maxLines: nat, n: nat) returns (k: nat)
    requires Within(maxLines, n)
    ensures Whole(entries, maxLines, n) ==> Chunks(entries, maxLines, n) == Chunks(entries, 0, 0)
    ensures !Whole(entries, maxLines, n) ==> CutAt(Chunks(entries, maxLines, n), Chunks(entries, 0, 0), k)
  {
    k := 0;
    if entries != [] {
      var lines, rest, h := entries[0].lines, entries[1..], Headers(entries[0].key);
      var here, later, next := LineChunks(lines, 0, 0), Chunks(rest, 0, 0), Counted(maxLines, n, |lines|);
      LinesAreCut(lines, maxLines, n);
      Unfold(entries, 0, 0, h, here, later);
      if Within(maxLines, next) {
        k := LimitCuts(rest, maxLines, next);
        Unfold(entries, maxLines, n, h, here, Chunks(rest, maxLines, next));
        k := CutStep(h, here, later, Chunks(rest, maxLines, next), false, Whole(rest, maxLines, next), k);
      } else {
        k := Fit(maxLines, n, |lines|);
        Unfold(entries, maxLines, n, h, here[..k] + [Marker], []);
        k := CutStep(h, here, later, [], true, false, k);
      }
    }
  }

  // ---------------------------------------------------------------- the text, in full

  function LinesText(lines: seq<string>): string {
    if lines == [] then "" else CStr(lines[0]) + LinesText(lines[1..])
  }

  /** Every key between a newline and a colon with a newline, and then its lines as they are. */
  function FullText(entries: seq<Entry>): string {
    if entries == [] then ""
    else "\n" + CStr(entries[0].key) + ":\n" + LinesText(entries[0].lines) + FullText(entries[1..])
  }

  lemma Literals()
    ensures CStr("\n") == "\n" && CStr(":\n") == ":\n"
  {
    CStrIs("\n", 1);
    CStrIs(":\n", 2);
  }

  lemma {:induction false} LineChunksText(lines: seq<string>)
    ensures Text(LineChunks(lines, 0, 0)) == LinesText(lines)
  {
    if lines != [] {
      LineChunksText(lines[1..]);
      LineStep(lines, 0, 0);
    }
  }

  /** Without a limit, the whole of that text. */
  lemma {:induction false} TextIsFull(entries: seq<Entry>)
    ensures Text(Chunks(entries, 0, 0)) == FullText(entries)
  {
    if entries != [] {
      TextIsFull(entries[1..]);
      EntryStep(entries, 0, 0);
      HeadersText(entries[0].key);
      LineChunksText(entries[0].lines);
      Literals();
      AssociateFour("\n", CStr(entries[0].key), ":\n", LinesText(entries[0].lines) + FullText(entries[1..]));
      Grouped("\n", CStr(entries[0].key), ":\n", LinesText(entries[0].lines), FullText(entries[1..]));
    }
  }

  lemma Grouped(a: string, b: string, c: string, d: string, e: string)
    ensures a + (b + c) + d + e == a + b + c + d + e
  {
  }

  lemma MarkerIs()
    ensures CStr(MarkerText()) == "... see full diagnostics in crash report.\n"
  {
    CStrIs(MarkerText(), |MarkerText()|);
  }

  lemma ValuesOne(c: Chunk)
    ensures ValuesIn([c]) == if c.Value? then [c.text] else []
  {
    assert [c][1..] == [];
  }

  /** The value line at a cut is the next one after those before the cut. */
  lemma CutLine(cut: seq<Chunk>, all: seq<Chunk>, k: nat)
    requires CutAt(cut, all, k)
    ensures Text(cut) == Text(all[..k]) + CStr(MarkerText())
    ensures Text(all) == Text(all[..k]) + CStr(all[k].text) + Text(all[k + 1..])
    ensures ValuesIn(cut) == ValuesIn(all[..k])
    ensures ValuesIn(all) == ValuesIn(all[..k]) + [all[k].text] + ValuesIn(all[k + 1..])
  {
    assert all == all[..k] + [all[k]] + all[k + 1..];
    TextConcat(all[..k], [Marker]);
    TextConcat(all[..k] + [all[k]], all[k + 1..]);
    TextConcat(all[..k], [all[k]]);
    TextOne(Marker);
    TextOne(all[k]);
    ValuesConcat(all[..k], [Marker]);
    ValuesConcat(all[..k] + [all[k]], all[k + 1..]);
    ValuesConcat(all[..k], [all[k]]);
    ValuesOne(Marker);
    ValuesOne(all[k]);
  }

  /** Under a limit that leaves lines out, the text before the first such line, and then the marker. */
  lemma TextIsCut(entries: seq<Entry>, maxLines: nat) returns (before: string, after: string)
    requires 0 < maxLines < |AllLines(entries)|
    ensures FullText(entries) == before + CStr(AllLines(entries)[maxLines]) + after
    ensures Text(Chunks(entries, maxLines, 0)) == before + "... see full diagnostics in crash report.\n"
  {
    var all, cut := Chunks(entries, 0, 0), Chunks(entries, maxLines, 0);
    var k := LimitCuts(entries, maxLines, 0);
    TextIsFull(entries);
    ValuesAreFirstLines(entries, maxLines, 0);
    ValuesAreFirstLines(entries, 0, 0);
    CutLine(cut, all, k);
    MarkerIs();
    before, after := Text(all[..k]), Text(all[k + 1..]);
    NextLine(AllLines(entries), ValuesIn(cut), all[k].text, ValuesIn(all[k + 1..]), maxLines);
  }

  lemma NextLine(lines: seq<string>, first: seq<string>, line: string, rest: seq<string>, n: nat)
    requires n < |lines| && first == lines[..n] && lines[..|lines|] == first + [line] + rest
    ensures line == lines[n]
  {
    assert lines == lines[..|lines|];
    assert (first + [line] + rest)[n] == line;
  }

  // ---------------------------------------------------------------- where the text goes

  /** What the kernel answers to one write. */
  datatype Outcome = Accept(most: nat) | Fail(code: int)

  const EINTR: int := 4

  /** An open file descriptor; after the scripted outcomes, writes go through whole. */
  class Descriptor {
    var text: string
    var script: seq<Outcome>
    var errno: int

    constructor (script: seq<Outcome>)
      ensures text == [] && this.script == script && errno == 0
    {
      text, this.script, errno := [], script, 0;
    }

    /** Nothing worse than an interruption or a short write will happen. */
    predicate Reliable()
      reads this
    {
      forall i | 0 <= i < |script| :: script[i].Fail? ==> script[i].code == EINTR
    }

    /** write(2) */
    method Write(msg: string) returns (n: int)
      requires msg != []
      modifies this
      ensures n <= |msg| && text == old(text) + (if n < 0 then [] else msg[..n])
      ensures old(script) == [] ==> script == [] && n == |msg|
      ensures old(script) != [] ==> script == old(script)[1..]
      ensures old(Reliable()) && n < 0 ==> errno == EINTR
    {
      n := |msg|;
      if script != [] {
        match script[0] {
          case Accept(most) => n := if most < |msg| then most else |msg|;
          case Fail(code) => n, errno := -1, code;
        }
        script := script[1..];
      }
      if n >= 0 {
        text := text + msg[..n];
      }
    }
  }

  /** aswrite: retries interrupted and short writes, gives up on other errors, leaves errno alone. */
  method ASWrite(fd: Descriptor, msg: string) returns (ghost sent: nat)
    modifies fd
    ensures sent <= |CStr(msg)| && fd.text == old(fd.text) + CStr(msg)[..sent]
    ensures old(fd.Reliable()) ==> fd.Reliable() && sent == |CStr(msg)|
    ensures fd.errno == old(fd.errno)
  {
    var saved := fd.errno;
    var len := AsStrLen(msg);
    var written := 0;
    while written < len
      invariant written <= len
      invariant fd.text == old(fd.text) + msg[..written]
      invariant old(fd.Reliable()) ==> fd.Reliable()
      decreases |fd.script|, len - written
    {
      var n := fd.Write(msg[written..len]);
      if n < 0 {
        if fd.errno == EINTR {
          continue;
        }
        break;
      }
      assert msg[..written + n] == msg[..written] + msg[written..len][..n];
      written := written + n;
    }
    fd.errno := saved;
    sent := written;
    assert msg[..len][..written] == msg[..written];
  }

  /** The place the next character of a buffer goes to. */
  class Cursor {
    const buf: array<char>
    var p: nat

    constructor (buf: array<char>)
      ensures this.buf == buf && p == 0
    {
      this.buf, p := buf, 0;
    }
  }

  /** The emitters that the walk is called with, and what they capture. */
  datatype Emitter = Fill(cursor: Cursor, end: nat) | Send(fd: Descriptor)

  ghost function Frame(e: Emitter): set<object> {
    match e
    case Fill(cursor, end) => {cursor, cursor.buf}
    case Send(fd) => {fd}
  }

  /** The emitter took exactly this text. */
  ghost predicate Took(e: Emitter, t: string)
    reads Frame(e)
  {
    match e
    case Fill(cursor, end) =>
      cursor.p == |t| <= end < cursor.buf.Length && forall i | 0 <= i < |t| :: cursor.buf[i] == t[i]
    case Send(fd) => fd.Reliable() && fd.text == t
  }

  /** Which of the text an emitter has room for. */
  function Clip(e: Emitter, t: string): string {
    if e.Fill? && |t| > e.end then t[..e.end] else t
  }

  /** With this much text taken, the emitter asks for more. */
  predicate Accepts(e: Emitter, t: string) {
    e.Send? || |t| < e.end
  }

  twostate predicate Untouched(e: Emitter)
    reads Frame(e)
  {
    e.Fill? ==> forall i | 0 <= i < e.cursor.buf.Length :: e.cursor.buf[i] == old(e.cursor.buf[i])
  }

  /** Nothing after the terminator changed. */
  twostate predicate RestKept(e: Emitter)
    reads Frame(e)
  {
    e.Fill? ==> forall i | e.end < i < e.cursor.buf.Length :: e.cursor.buf[i] == old(e.cursor.buf[i])
  }

  /** What is left of a text of which pieces were lost: nothing is added and the order is kept. */
  predicate Remains(a: string, t: string) {
    a == [] || (t != [] &&
                ((a[|a| - 1] == t[|t| - 1] && Remains(a[..|a| - 1], t[..|t| - 1])) || Remains(a, t[..|t| - 1])))
  }

  lemma {:induction false} AllRemains(t: string)
    ensures Remains(t, t)
  {
    if t != [] {
      AllRemains(t[..|t| - 1]);
    }
  }

  /** A first part of the next piece. */
  lemma {:induction false} RemainsWith(a: string, t: string, piece: string, n: nat)
    requires Remains(a, t) && n <= |piece|
    ensures Remains(a + piece[..n], t + piece)
    decreases |piece|
  {
    if piece == [] {
      assert a + piece[..n] == a && t + piece == t;
    } else {
      var below := piece[..|piece| - 1];
      assert (t + piece)[..|t + piece| - 1] == t + below;
      if n == |piece| {
        RemainsWith(a, t, below, n - 1);
        assert (a + piece)[..|a + piece| - 1] == a + below[..n - 1] && piece[..n] == piece;
      } else {
        RemainsWith(a, t, below, n);
        assert below[..n] == piece[..n];
      }
    }
  }

  /**
   Whatever was taken so far.  Only a descriptor can lose text, and only to an error; then it has
   what remains of the text when parts of it are lost.
   */
  ghost predicate Tracks(e: Emitter, sound: bool, t: string)
    reads Frame(e)
  {
    if sound then Took(e, t) else e.Send? && Remains(e.fd.text, t)
  }

  /** A buffer that was written to ends its text with a NUL. */
  ghost predicate Terminated(e: Emitter)
    reads Frame(e)
  {
    e.Fill? ==> e.cursor.p < e.cursor.buf.Length && e.cursor.buf[e.cursor.p] == '\0'
  }

  // ---------------------------------------------------------------- the walk

  /** The lambda of TryToFillLogInfoBuffer: copies while there is room. */
  method FillFrom(cursor: Cursor, end: nat, s: string, ghost t: string) returns (more: bool)
    requires Took(Fill(cursor, end), t)
    modifies cursor, cursor.buf
    ensures Took(Fill(cursor, end), Clip(Fill(cursor, end), t + CStr(s)))
    ensures more == Accepts(Fill(cursor, end), t + CStr(s))
    ensures Terminated(Fill(cursor, end)) && RestKept(Fill(cursor, end))
  {
    var i := 0;
    while i < |s| && s[i] != '\0' && cursor.p != end
      invariant i <= |s| && forall j | 0 <= j < i :: s[j] != '\0'
      invariant Took(Fill(cursor, end), t + s[..i])
      invariant RestKept(Fill(cursor, end))
    {
      assert t + s[..i + 1] == t + s[..i] + [s[i]];
      cursor.buf[cursor.p] := s[i];
      cursor.p := cursor.p + 1;
      i := i + 1;
    }
    cursor.buf[cursor.p] := '\0';
    Taken(s, i);
    assert Took(Fill(cursor, end), t + s[..i]);
    more := cursor.p != end;
  }

  /** A part of the text before its NUL, up to the NUL if that comes first. */
  lemma {:induction false} Taken(s: string, i: nat)
    requires i <= |s| && forall j | 0 <= j < i :: s[j] != '\0'
    ensures i <= |CStr(s)| && CStr(s)[..i] == s[..i]
    ensures i == |s| || s[i] == '\0' ==> i == |CStr(s)|
  {
    if i > 0 {
      Taken(s[1..], i - 1);
      assert s[..i] == [s[0]] + s[1..][..i - 1];
    }
  }

  /** One call of the emitter. */
  method Emit(e: Emitter, s: string, ghost sound: bool, ghost t: string) returns (more: bool)
    requires Tracks(e, sound, t)
    modifies Frame(e)
    ensures Tracks(e, sound, Clip(e, t + CStr(s)))
    ensures more == Accepts(e, t + CStr(s))
    ensures Terminated(e) && RestKept(e)
  {
    match e {
      case Fill(cursor, end) =>
        more := FillFrom(cursor, end, s, t);
      case Send(fd) =>
        ghost var had := fd.text;
        ghost var sent := ASWrite(fd, s);
        if !sound {
          RemainsWith(had, t, CStr(s), sent);
        }
        more := true;
    }
  }

  /** Nothing more is taken after a refusal. */
  lemma Refused(e: Emitter, t: string, u: string)
    requires !Accepts(e, t)
    ensures !Accepts(e, t + u) && Clip(e, t + u) == Clip(e, t)
  {
    assert (t + u)[..e.end] == t[..e.end];
  }

  lemma HeadersText(key: string)
    ensures Text(Headers(key)) == CStr("\n") + (CStr(key) + CStr(":\n"))
  {
    var h := Headers(key);
    assert h == [Header("\n")] + ([Header(key)] + [Header(":\n")]);
    TextConcat([Header("\n")], [Header(key)] + [Header(":\n")]);
    TextConcat([Header(key)], [Header(":\n")]);
    TextOne(Header("\n"));
    TextOne(Header(key));
    TextOne(Header(":\n"));
  }

  /** The three pieces before the lines of a key, up to the first refusal. */
  method EmitHeaders(e: Emitter, key: string, ghost sound: bool, ghost t: string) returns (more: bool)
    requires Tracks(e, sound, t)
    modifies Frame(e)
    ensures Tracks(e, sound, Clip(e, t + Text(Headers(key))))
    ensures more == Accepts(e, t + Text(Headers(key)))
    ensures Terminated(e) && RestKept(e)
  {
    HeadersText(key);
    more := EmitThree(e, "\n", key, ":\n", sound, t);
  }

  method EmitThree(e: Emitter, a: string, b: string, c: string, ghost sound: bool, ghost t: string) returns (more: bool)
    requires Tracks(e, sound, t)
    modifies Frame(e)
    ensures Tracks(e, sound, Clip(e, t + (CStr(a) + (CStr(b) + CStr(c)))))
    ensures more == Accepts(e, t + (CStr(a) + (CStr(b) + CStr(c))))
    ensures Terminated(e) && RestKept(e)
  {
    Associate(CStr(a), CStr(b), CStr(c));
    AssociateFour(t, CStr(a), CStr(b), CStr(c));
    more := Emit(e, a, sound, t);
    if !more {
      Refused(e, t + CStr(a), CStr(b));
      Refused(e, t + CStr(a) + CStr(b), CStr(c));
      return;
    }
    more := Emit(e, b, sound, t + CStr(a));
    if !more {
      Refused(e, t + CStr(a) + CStr(b), CStr(c));
      return;
    }
    more := Emit(e, c, sound, t + CStr(a) + CStr(b));
  }

  /** What the first of the remaining lines puts before the others. */
  lemma LineStep(lines: seq<string>, maxLines: nat, n: nat)
    requires lines != [] && (maxLines == 0 || n < maxLines)
    ensures Text(LineChunks(lines, maxLines, n))
         == CStr(lines[0]) + Text(LineChunks(lines[1..], maxLines, Counted(maxLines, n, 1)))
  {
    TextConcat([Value(lines[0])], LineChunks(lines[1..], maxLines, Counted(maxLines, n, 1)));
    TextOne(Value(lines[0]));
  }

  /** With u out and these lines to come, the key's text gets to the goal, and whole or not. */
  predicate LinesHeading(lines: seq<string>, maxLines: nat, n: nat, u: string, goal: string, whole: bool) {
    Within(maxLines, n) && u + Text(LineChunks(lines, maxLines, n)) == goal
    && whole == Within(maxLines, Counted(maxLines, n, |lines|))
  }

  lemma LinesStep(e: Emitter, lines: seq<string>, maxLines: nat, n: nat, u: string, goal: string, whole: bool)
    requires lines != [] && (maxLines == 0 || n < maxLines) && LinesHeading(lines, maxLines, n, u, goal, whole)
    ensures var after := u + CStr(lines[0]);
      LinesHeading(lines[1..], maxLines, Counted(maxLines, n, 1), after, goal, whole)
      && (!Accepts(e, after) ==> Clip(e, after) == Clip(e, goal) && !Accepts(e, goal))
  {
    var rest := Text(LineChunks(lines[1..], maxLines, Counted(maxLines, n, 1)));
    LineStep(lines, maxLines, n);
    Associate(u, CStr(lines[0]), rest);
    if !Accepts(e, u + CStr(lines[0])) {
      Refused(e, u + CStr(lines[0]), rest);
    }
  }

  lemma LinesOver(lines: seq<string>, maxLines: nat, n: nat, u: string, goal: string, whole: bool)
    requires lines != [] && maxLines > 0 && n >= maxLines && LinesHeading(lines, maxLines, n, u, goal, whole)
    ensures goal == u + CStr(MarkerText()) && !whole
  {
    TextOne(Marker);
  }

  /** The lines of one key, up to the first refusal or the limit; n counts the lines that are out. */
  method EmitLines(e: Emitter, lines: seq<string>, maxLines: nat, n0: nat, ghost sound: bool, ghost t: string)
    returns (more: bool, n: nat)
    requires Tracks(e, sound, t) && Accepts(e, t) && Terminated(e) && Within(maxLines, n0)
    modifies Frame(e)
    ensures var after := t + Text(LineChunks(lines, maxLines, n0));
      Tracks(e, sound, Clip(e, after))
      && more == (Accepts(e, after) && Within(maxLines, Counted(maxLines, n0, |lines|)))
    ensures more ==> n == Counted(maxLines, n0, |lines|)
    ensures Terminated(e) && RestKept(e)
  {
    n := n0;
    ghost var u, goal := t, t + Text(LineChunks(lines, maxLines, n0));
    ghost var whole := Within(maxLines, Counted(maxLines, n0, |lines|));
    assert lines[0..] == lines;
    for i := 0 to |lines|
      invariant Tracks(e, sound, u) && Accepts(e, u) && Terminated(e) && RestKept(e)
      invariant n == Counted(maxLines, n0, i) && LinesHeading(lines[i..], maxLines, n, u, goal, whole)
    {
      if maxLines > 0 {
        var over := n >= maxLines;
        if over {
          LinesOver(lines[i..], maxLines, n, u, goal, whole);
          var ignored := Emit(e, MarkerText(), sound, u);
          return false, n;
        }
      }
      LinesStep(e, lines[i..], maxLines, n, u, goal, whole);
      assert lines[i..][1..] == lines[i + 1..];
      more := Emit(e, lines[i], sound, u);
      u := u + CStr(lines[i]);
      n := Counted(maxLines, n, 1);
      if !more {
        return;
      }
    }
    more := true;
    assert u + [] == u;
  }

  /** The pieces of one entry, and then the others'. */
  lemma EntryStep(entries: seq<Entry>, maxLines: nat, n: nat)
    requires entries != [] && Within(maxLines, n)
    ensures var next := Counted(maxLines, n, |entries[0].lines|);
      Text(Chunks(entries, maxLines, n)) == Text(Headers(entries[0].key)) + Text(LineChunks(entries[0].lines, maxLines, n))
        + (if Within(maxLines, next) then Text(Chunks(entries[1..], maxLines, next)) else [])
  {
    var next := Counted(maxLines, n, |entries[0].lines|);
    var h, here := Headers(entries[0].key), LineChunks(entries[0].lines, maxLines, n);
    var later := if Within(maxLines, next) then Chunks(entries[1..], maxLines, next) else [];
    Unfold(entries, maxLines, n, h, here, later);
    TextConcat(h, here);
    TextConcat(h + here, later);
  }

  /** One key and its lines, up to the first refusal or the limit. */
  method EmitEntry(e: Emitter, entry: Entry, maxLines: nat, n0: nat, ghost sound: bool, ghost t: string)
    returns (more: bool, n: nat)
    requires Tracks(e, sound, t) && Within(maxLines, n0)
    modifies Frame(e)
    ensures var after := t + EntryText(entry, maxLines, n0);
      Tracks(e, sound, Clip(e, after))
      && more == (Accepts(e, after) && Within(maxLines, Counted(maxLines, n0, |entry.lines|)))
    ensures more ==> n == Counted(maxLines, n0, |entry.lines|)
    ensures Terminated(e) && RestKept(e)
  {
    n := n0;
    ghost var u := t + Text(Headers(entry.key));
    assert t + EntryText(entry, maxLines, n0) == u + Text(LineChunks(entry.lines, maxLines, n0));
    more := EmitHeaders(e, entry.key, sound, t);
    if !more {
      Refused(e, u, Text(LineChunks(entry.lines, maxLines, n0)));
      return;
    }
    more, n := EmitLines(e, entry.lines, maxLines, n0, sound, u);
  }

  function EntryText(entry: Entry, maxLines: nat, n: nat): string {
    Text(Headers(entry.key)) + Text(LineChunks(entry.lines, maxLines, n))
  }

  function Rest(entries: seq<Entry>, maxLines: nat, n: nat): string {
    if Within(maxLines, n) then Text(Chunks(entries, maxLines, n)) else []
  }

  /** What entry i puts before the later ones. */
  lemma Shift(t: string, entries: seq<Entry>, i: nat, maxLines: nat, n: nat)
    requires i < |entries| && Within(maxLines, n)
    ensures var next := Counted(maxLines, n, |entries[i].lines|);
      t + Text(Chunks(entries[i..], maxLines, n))
      == t + EntryText(entries[i], maxLines, n) + Rest(entries[i + 1..], maxLines, next)
      && Whole(entries[i..], maxLines, n) == (Within(maxLines, next) && Whole(entries[i + 1..], maxLines, next))
  {
    var next := Counted(maxLines, n, |entries[i].lines|);
    assert entries[i..][0] == entries[i] && entries[i..][1..] == entries[i + 1..];
    EntryStep(entries[i..], maxLines, n);
    Associate(t, EntryText(entries[i], maxLines, n), Rest(entries[i + 1..], maxLines, next));
  }

  /** With u out and the entries from i on to come, the walk gets to the goal, and whole or not. */
  predicate Heading(entries: seq<Entry>, i: nat, maxLines: nat, n: nat, u: string, goal: string, whole: bool)
    requires i <= |entries|
  {
    Within(maxLines, n) && u + Text(Chunks(entries[i..], maxLines, n)) == goal && whole == Whole(entries[i..], maxLines, n)
  }

  lemma HeadingStarts(entries: seq<Entry>, maxLines: nat, t: string)
    ensures Heading(entries, 0, maxLines, 0, t, t + Text(Chunks(entries, maxLines, 0)), Whole(entries, maxLines, 0))
    ensures Within(maxLines, 0)
  {
    assert entries[0..] == entries;
  }

  lemma HeadingEnds(entries: seq<Entry>, maxLines: nat, n: nat, u: string, goal: string, whole: bool)
    requires Heading(entries, |entries|, maxLines, n, u, goal, whole)
    ensures u == goal && whole
  {
    assert u + [] == u;
  }

  lemma HeadingStep(e: Emitter, entries: seq<Entry>, i: nat, maxLines: nat, n: nat, u: string, goal: string, whole: bool)
    requires i < |entries| && Heading(entries, i, maxLines, n, u, goal, whole)
    ensures var (after, next) := (u + EntryText(entries[i], maxLines, n), Counted(maxLines, n, |entries[i].lines|));
      if Accepts(e, after) && Within(maxLines, next) then Heading(entries, i + 1, maxLines, next, after, goal, whole)
      else Clip(e, after) == Clip(e, goal) && !(Accepts(e, goal) && whole)
  {
    var after, next := u + EntryText(entries[i], maxLines, n), Counted(maxLines, n, |entries[i].lines|);
    Shift(u, entries, i, maxLines, n);
    if !Accepts(e, after) {
      Refused(e, after, Rest(entries[i + 1..], maxLines, next));
    } else if !Within(maxLines, next) {
      assert after + [] == after;
    }
  }

  /**
   _ForEachLine: the emitter takes what it has room for of the map's text.  The walk says
   whether all of it went out without a refusal and without the limit.
   */
  method ForEachLine(entries: seq<Entry>, e: Emitter, maxLines: nat, ghost sound: bool, ghost t: string)
    returns (all: bool)
    requires Tracks(e, sound, t)
    modifies Frame(e)
    ensures Tracks(e, sound, Clip(e, t + Text(Chunks(entries, maxLines, 0))))
    ensures entries != [] ==> all == (Accepts(e, t + Text(Chunks(entries, maxLines, 0))) && Whole(entries, maxLines, 0))
    ensures entries != [] ==> Terminated(e)
    ensures entries == [] ==> all && Untouched(e)
    ensures RestKept(e)
  {
    hide Heading, EntryText, Text, Chunks;
    var n := 0;
    ghost var u, goal, whole := t, t + Text(Chunks(entries, maxLines, 0)), Whole(entries, maxLines, 0);
    HeadingStarts(entries, maxLines, t);
    for i := 0 to |entries|
      invariant Tracks(e, sound, u) && RestKept(e)
      invariant Within(maxLines, n) && Heading(entries, i, maxLines, n, u, goal, whole)
      invariant if i == 0 then Untouched(e) else Accepts(e, u) && Terminated(e)
    {
      HeadingStep(e, entries, i, maxLines, n, u, goal, whole);
      ghost var after := u + EntryText(entries[i], maxLines, n);
      var more;
      more, n := EmitEntry(e, entries[i], maxLines, n, sound, u);
      if !more {
        return false;
      }
      u := after;
    }
    all := true;
    HeadingEnds(entries, maxLines, n, u, goal, whole);
  }

  // ---------------------------------------------------------------- the log

  /** Arch_LogInfo: the map and the flag that guards it. */
  class LogInfo {
    var entries: seq<Entry>
    var locked: bool

    constructor ()
      ensures entries == [] && !locked
    {
      entries, locked := [], false;
    }

    method TryLock() returns (acquired: bool)
      modifies `locked
      ensures acquired == !old(locked) && locked
    {
      acquired := !locked;
      locked := true;
    }

    /**
     ASEmitAnyExtraLogInfo: while no write fails with more than an interruption, the
     descriptor gets exactly the text of the map.  Otherwise parts of it are lost, but nothing is
     added and the order is kept.
     */
    method ASEmitAnyExtraLogInfo(fd: Descriptor, maxLines: nat)
      modifies this`locked, fd
      ensures locked == old(locked)
      ensures old(locked) ==> fd.text == old(fd.text)
      ensures !old(locked) && old(fd.Reliable()) ==>
                fd.Reliable() && fd.text == old(fd.text) + Text(Chunks(entries, maxLines, 0))
      ensures !old(locked) ==> Remains(fd.text, old(fd.text) + Text(Chunks(entries, maxLines, 0)))
    {
      var acquired := TryLock();
      if !acquired {
        return;
      }
      AllRemains(fd.text);
      ghost var text := fd.text + Text(Chunks(entries, maxLines, 0));
      AllRemains(text);
      var all := ForEachLine(entries, Send(fd), maxLines, fd.Reliable(), fd.text);
      locked := false;
    }

    /**
     TryToFillLogInfoBuffer: the buffer holds the first bufSize - 1 characters of that same
     text, or all of it, and a NUL; the answer says whether all of it is there with room to
     spare.  An empty map leaves the buffer as it was.
     */
    method TryToFillLogInfoBuffer(buf: array<char>, bufSize: nat, maxLines: nat) returns (all: bool)
      requires 1 <= bufSize <= buf.Length
      modifies this`locked, buf
      ensures locked == old(locked)
      ensures forall i | bufSize <= i < buf.Length :: buf[i] == old(buf[i])
      ensures old(locked) ==> !all && buf[0] == '\0' && forall i | 0 < i < buf.Length :: buf[i] == old(buf[i])
      ensures !old(locked) && entries != [] ==>
                var text := Text(Chunks(entries, maxLines, 0));
                Holds(buf, if |text| < bufSize then text else text[..bufSize - 1])
                && all == (|text| < bufSize - 1 && Whole(entries, maxLines, 0))
      ensures !old(locked) && entries == [] ==> all && forall i | 0 <= i < buf.Length :: buf[i] == old(buf[i])
    {
      var acquired := TryLock();
      if !acquired {
        buf[0] := '\0';
        return false;
      }
      var p := new Cursor(buf);
      var e := Fill(p, bufSize - 1);
      all := ForEachLine(entries, e, maxLines, true, []);
      ghost var text := Text(Chunks(entries, maxLines, 0));
      assert [] + text == text;
      locked := false;
    }
  }

  /** The buffer's C string. */
  ghost predicate Holds(buf: array<char>, text: string)
    reads buf
  {
    |text| < buf.Length && buf[|text|] == '\0' && forall i | 0 <= i < |text| :: buf[i] == text[i]
  }
}
