/** SplitLines: the loop over the runes of a string, and what the lines of a text are. */
module Lines {
  import opened Bytes

  const NEWLINE: byte := 10

  /** The lines that end in a newline, without it, and what follows the last newline. */
  function Parse(s: seq<byte>): (seq<seq<byte>>, seq<byte>) {
    if s == [] then ([], [])
    else
      var (done, open) := Parse(s[..|s| - 1]);
      var c := s[|s| - 1];
      if c == NEWLINE then (done + [open], []) else (done, open + [c])
  }

  /** The lines of a text; a newline at its very end starts no further line. */
  function Lines(s: seq<byte>): seq<seq<byte>> {
    var (done, open) := Parse(s);
    if open == [] then done else done + [open]
  }

  lemma {:induction false} ParseStep(s: seq<byte>, c: byte)
    ensures var (done, open) := Parse(s);
            Parse(s + [c]) == if c == NEWLINE then (done + [open], []) else (done, open + [c])
  {
    assert (s + [c])[..|s|] == s;
  }

  /** The lines, each with a newline behind it. */
  function Terminated(lines: seq<seq<byte>>): seq<byte> {
    if lines == [] then [] else Terminated(lines[..|lines| - 1]) + lines[|lines| - 1] + [NEWLINE]
  }

  /** The parts make up the text, and none of them has a newline: that determines them. */
  lemma {:induction false} ParseMeaning(s: seq<byte>)
    ensures var (done, open) := Parse(s);
            s == Terminated(done) + open && NEWLINE !in open && forall line :: line in done ==> NEWLINE !in line
  {
    if s != [] {
      var most, c := s[..|s| - 1], s[|s| - 1];
      ParseMeaning(most);
      assert s == most + [c];
      var (done, open) := Parse(most);
      if c == NEWLINE {
        assert (done + [open])[..|done|] == done;
      }
    }
  }

  predicate Between(lo: byte, b: byte, hi: byte) {
    lo <= b <= hi
  }

  predicate Continuation(s: seq<byte>, i: nat) {
    i < |s| && Between(0x80, s[i], 0xBF)
  }

  /** How many bytes a range loop steps over at i: the rune's, or one where the encoding is broken. */
  function RuneWidth(s: seq<byte>, i: nat): (w: nat)
    requires i < |s|
    ensures 1 <= w && i + w <= |s|
    ensures w > 1 ==> forall k :: i <= k < i + w ==> s[k] >= 0x80
  {
    var b := s[i];
    if Between(0xC2, b, 0xDF) && Continuation(s, i + 1) then 2
    else if Between(0xE0, b, 0xEF) && Continuation(s, i + 1) && Continuation(s, i + 2)
            && (b == 0xE0 ==> s[i + 1] >= 0xA0) && (b == 0xED ==> s[i + 1] <= 0x9F) then 3
    else if Between(0xF0, b, 0xF4) && Continuation(s, i + 1) && Continuation(s, i + 2) && Continuation(s, i + 3)
            && (b == 0xF0 ==> s[i + 1] >= 0x90) && (b == 0xF4 ==> s[i + 1] <= 0x8F) then 4
    else 1
  }

  lemma SliceGrows<T>(s: seq<T>, i: nat, j: nat)
    requires i < j <= |s|
    ensures s[i..j] == s[i..j - 1] + [s[j - 1]]
  {}

  /** Bytes other than newlines only lengthen the line that is open. */
  lemma {:induction false} ParseOver(s: seq<byte>, start: nat, i: nat, j: nat)
    requires start <= i <= j <= |s| && Parse(s[..i]).1 == s[start..i]
    requires forall k :: i <= k < j ==> s[k] != NEWLINE
    ensures Parse(s[..j]) == (Parse(s[..i]).0, s[start..j])
  {
    if i < j {
      ParseOver(s, start, i, j - 1);
      ParseStep(s[..j - 1], s[j - 1]);
      SliceGrows(s, 0, j);
      SliceGrows(s, start, j);
      assert s[0..j - 1] == s[..j - 1] && s[0..j] == s[..j];
    }
  }

  lemma NextLine(s: seq<byte>, start: nat, i: nat)
    requires start <= i < |s| && Parse(s[..i]).1 == s[start..i] && s[i] == NEWLINE
    ensures Parse(s[..i + 1]) == (Parse(s[..i]).0 + [s[start..i]], s[i + 1..i + 1])
  {
    ParseStep(s[..i], s[i]);
    SliceGrows(s, 0, i + 1);
    assert s[0..i] == s[..i] && s[0..i + 1] == s[..i + 1];
    assert s[i + 1..i + 1] == [];
  }

  lemma LastLine(s: seq<byte>, start: nat)
    requires start <= |s| && Parse(s[..|s|]).1 == s[start..|s|]
    ensures Lines(s) == if start < |s| then Parse(s[..|s|]).0 + [s[start..]] else Parse(s[..|s|]).0
  {
    assert s[..|s|] == s && s[start..|s|] == s[start..];
  }

  /** The next position, past a rune that starts at i; a newline is a rune of one byte. */
  method NextRune(s: seq<byte>, i: nat) returns (j: nat)
    requires i < |s|
    ensures i < j <= |s| && (forall k :: i < k < j ==> s[k] != NEWLINE) && (s[i] == NEWLINE ==> j == i + 1)
  {
    j := i + RuneWidth(s, i);
  }

  method SplitLines(s: seq<byte>) returns (lines: seq<seq<byte>>)
    ensures lines == Lines(s)
  {
    lines := [];
    var start, i := 0, 0;
    while i < |s|
      invariant 0 <= start <= i <= |s|
      invariant Parse(s[..i]) == (lines, s[start..i])
    {
      var j := NextRune(s, i);
      if s[i] == NEWLINE {
        NextLine(s, start, i);
        lines := lines + [s[start..i]];
        start := i + 1;
      } else {
        ParseOver(s, start, i, j);
      }
      i := j;
    }
    LastLine(s, start);
    if start < |s| {
      lines := lines + [s[start..]];
    }
  }

  /** The lines that are handed on: empty ones are skipped. */
  function NonEmpty<T>(lines: seq<seq<T>>): seq<seq<T>> {
    if lines == [] then []
    else
      var last := lines[|lines| - 1];
      NonEmpty(lines[..|lines| - 1]) + if last == [] then [] else [last]
  }

  function Payloads(s: seq<byte>): seq<seq<byte>> {
    NonEmpty(Lines(s))
  }

  lemma {:induction false} NonEmptyStep<T>(lines: seq<seq<T>>, line: seq<T>)
    ensures NonEmpty(lines + [line]) == NonEmpty(lines) + if line == [] then [] else [line]
  {
    assert (lines + [line])[..|lines|] == lines;
  }

  lemma {:induction false} NonEmptyAppend<T>(a: seq<seq<T>>, b: seq<seq<T>>)
    ensures NonEmpty(a + b) == NonEmpty(a) + NonEmpty(b)
  {
    if b == [] {
      assert a + b == a;
    } else {
      var most, last := b[..|b| - 1], b[|b| - 1];
      NonEmptyAppend(a, most);
      NonEmptyStep(a + most, last);
      assert a + b == (a + most) + [last];
      Regroup(NonEmpty(a), NonEmpty(most), if last == [] then [] else [last]);
    }
  }

  predicate AtBoundary(s: seq<byte>) {
    s == [] || s[|s| - 1] == NEWLINE
  }

  /** What Parse makes of a text read in two parts. */
  function Joined(a: (seq<seq<byte>>, seq<byte>), b: (seq<seq<byte>>, seq<byte>)): (seq<seq<byte>>, seq<byte>) {
    if b.0 == [] then (a.0, a.1 + b.1) else (a.0 + ([a.1 + b.0[0]] + b.0[1..]), b.1)
  }

  lemma JoinedStep(a: (seq<seq<byte>>, seq<byte>), b: (seq<seq<byte>>, seq<byte>), c: byte)
    ensures Joined(a, (b.0 + [b.1], [])) == (Joined(a, b).0 + [Joined(a, b).1], [])
    ensures Joined(a, (b.0, b.1 + [c])) == (Joined(a, b).0, Joined(a, b).1 + [c])
  {
    if b.0 == [] {
      assert [] + [b.1] == [b.1] && [a.1 + b.1] + [] == [a.1 + b.1];
    } else {
      assert (b.0 + [b.1])[1..] == b.0[1..] + [b.1];
      Regroup([a.1 + b.0[0]], b.0[1..], [b.1]);
      Regroup(a.0, [a.1 + b.0[0]] + b.0[1..], [b.1]);
    }
    Regroup(a.1, b.1, [c]);
  }

  lemma {:induction false} ParseOfCut(a: seq<byte>, b: seq<byte>)
    ensures Parse(a + b) == Joined(Parse(a), Parse(b))
  {
    if b == [] {
      assert a + b == a;
      assert Parse(a).1 + [] == Parse(a).1;
    } else {
      var most, c := b[..|b| - 1], b[|b| - 1];
      ParseOfCut(a, most);
      assert a + b == (a + most) + [c] && b == most + [c];
      ParseStep(a + most, c);
      ParseStep(most, c);
      JoinedStep(Parse(a), Parse(most), c);
    }
  }

  lemma {:induction false} OpenIff(s: seq<byte>)
    ensures Parse(s).1 == [] <==> AtBoundary(s)
  {}

  /** Without a newline the text is the open line; otherwise the first line starts the text. */
  lemma {:induction false} FirstLine(s: seq<byte>)
    ensures var (done, open) := Parse(s);
            if done == [] then open == s && NEWLINE !in s
            else s != [] && (done[0] == [] <==> s[0] == NEWLINE)
  {
    if s != [] {
      FirstLine(s[..|s| - 1]);
      assert s == s[..|s| - 1] + [s[|s| - 1]];
    }
  }

  /** Neither side of the cut has a newline at it, unless the cut is clean. */
  predicate Clean(a: seq<byte>, b: seq<byte>) {
    AtBoundary(a) || b == [] || b[0] == NEWLINE
  }

  function Closed(open: seq<byte>): seq<seq<byte>> {
    if open == [] then [] else [open]
  }

  lemma {:induction false} PayloadsAre(s: seq<byte>, done: seq<seq<byte>>, open: seq<byte>)
    requires Parse(s) == (done, open)
    ensures Lines(s) == done + Closed(open) && Payloads(s) == NonEmpty(done) + Closed(open)
  {
    if open == [] {
      assert done + [] == done && NonEmpty(done) + [] == NonEmpty(done);
    } else {
      NonEmptyStep(done, open);
    }
  }

  lemma {:induction false} NonEmptyFirst(first: seq<byte>, rest: seq<seq<byte>>)
    ensures NonEmpty([first] + rest) == Closed(first) + NonEmpty(rest)
  {
    NonEmptyAppend([first], rest);
    NonEmptyStep([], first);
    assert [] + [first] == [first] && [] + Closed(first) == Closed(first);
  }

  /** Cutting a text inside a line makes one payload more; a clean cut changes nothing. */
  lemma PayloadsOfCut(a: seq<byte>, b: seq<byte>)
    ensures Clean(a, b) ==> Payloads(a + b) == Payloads(a) + Payloads(b)
    ensures !Clean(a, b) ==> |Payloads(a + b)| == |Payloads(a)| + |Payloads(b)| - 1
  {
    var (da, oa) := Parse(a);
    var (db, ob) := Parse(b);
    ParseOfCut(a, b);
    OpenIff(a);
    FirstLine(b);
    PayloadsAre(a, da, oa);
    PayloadsAre(b, db, ob);
    if db == [] {
      PayloadsAre(a + b, da, oa + ob);
      OpenCut(NonEmpty(da), oa, ob);
      assert [] + Closed(ob) == Closed(ob);
    } else {
      var first, rest := db[0], db[1..];
      assert db == [first] + rest;
      PayloadsAre(a + b, da + ([oa + first] + rest), ob);
      NonEmptyAppend(da, [oa + first] + rest);
      NonEmptyFirst(oa + first, rest);
      NonEmptyFirst(first, rest);
      DoneCut(NonEmpty(da), oa, first, NonEmpty(rest), Closed(ob));
    }
  }

  lemma OpenCut(before: seq<seq<byte>>, oa: seq<byte>, ob: seq<byte>)
    ensures oa == [] || ob == [] ==> before + Closed(oa + ob) == (before + Closed(oa)) + Closed(ob)
    ensures oa != [] && ob != [] ==> |before + Closed(oa + ob)| == |before + Closed(oa)| + |Closed(ob)| - 1
  {
    if oa == [] {
      assert oa + ob == ob && before + [] == before;
    } else if ob == [] {
      assert oa + ob == oa && (before + Closed(oa)) + [] == before + Closed(oa);
    }
  }

  lemma DoneCut(
    before: seq<seq<byte>>, oa: seq<byte>, first: seq<byte>, rest: seq<seq<byte>>, after: seq<seq<byte>>)
    ensures oa == [] || first == [] ==>
              (before + (Closed(oa + first) + rest)) + after == (before + Closed(oa)) + ((Closed(first) + rest) + after)
    ensures oa != [] && first != [] ==>
              |(before + (Closed(oa + first) + rest)) + after| ==
                |before + Closed(oa)| + |(Closed(first) + rest) + after| - 1
  {
    if oa == [] || first == [] {
      OpenCut(before, oa, first);
      Regroup(before, Closed(oa + first), rest);
      Regroup(before + Closed(oa), Closed(first), rest);
      Regroup(before + Closed(oa), Closed(first) + rest, after);
    }
  }

  lemma DoneLines(
    before: seq<seq<byte>>, oa: seq<byte>, first: seq<byte>, rest: seq<seq<byte>>, after: seq<seq<byte>>)
    ensures oa == [] ==> (before + ([oa + first] + rest)) + after == (before + Closed(oa)) + (([first] + rest) + after)
    ensures oa != [] ==>
              |(before + ([oa + first] + rest)) + after| == |before + Closed(oa)| + |([first] + rest) + after| - 1
  {
    if oa == [] {
      assert oa + first == first && before + Closed(oa) == before;
      Regroup(before, [first] + rest, after);
    }
  }

  lemma LinesOfCut(a: seq<byte>, b: seq<byte>)
    ensures AtBoundary(a) || b == [] ==> Lines(a + b) == Lines(a) + Lines(b)
    ensures !AtBoundary(a) && b != [] ==> |Lines(a + b)| == |Lines(a)| + |Lines(b)| - 1
  {
    var (da, oa) := Parse(a);
    var (db, ob) := Parse(b);
    ParseOfCut(a, b);
    OpenIff(a);
    FirstLine(b);
    PayloadsAre(a, da, oa);
    PayloadsAre(b, db, ob);
    if db == [] {
      PayloadsAre(a + b, da, oa + ob);
      OpenCut(da, oa, ob);
      assert [] + Closed(ob) == Closed(ob);
    } else {
      var first, rest := db[0], db[1..];
      assert db == [first] + rest;
      PayloadsAre(a + b, da + ([oa + first] + rest), ob);
      DoneLines(da, oa, first, rest, Closed(ob));
    }
  }

  /** So splitting distributes over a cut exactly when the cut is at a newline or an end. */
  lemma SplitDistributesIff(a: seq<byte>, b: seq<byte>)
    ensures Lines(a + b) == Lines(a) + Lines(b) <==> AtBoundary(a) || b == []
    ensures Payloads(a + b) == Payloads(a) + Payloads(b) <==> Clean(a, b)
  {
    PayloadsOfCut(a, b);
    LinesOfCut(a, b);
  }

  function Flatten(parts: seq<seq<byte>>): seq<byte> {
    if parts == [] then [] else Flatten(parts[..|parts| - 1]) + parts[|parts| - 1]
  }

  lemma {:induction false} FlattenStep(parts: seq<seq<byte>>, part: seq<byte>)
    ensures Flatten(parts + [part]) == Flatten(parts) + part
  {
    assert (parts + [part])[..|parts|] == parts;
  }

  lemma {:induction false} FlattenAppend(a: seq<seq<byte>>, b: seq<seq<byte>>)
    ensures Flatten(a + b) == Flatten(a) + Flatten(b)
  {
    if b == [] {
      assert a + b == a;
    } else {
      var most, last := b[..|b| - 1], b[|b| - 1];
      FlattenAppend(a, most);
      FlattenStep(a + most, last);
      assert a + b == (a + most) + [last];
      Regroup(Flatten(a), Flatten(most), last);
    }
  }

  /** The text without its newlines. */
  function Strip(s: seq<byte>): seq<byte> {
    if s == [] then []
    else
      var c := s[|s| - 1];
      Strip(s[..|s| - 1]) + if c == NEWLINE then [] else [c]
  }

  lemma {:induction false} StripAppend(a: seq<byte>, b: seq<byte>)
    ensures Strip(a + b) == Strip(a) + Strip(b)
  {
    if b == [] {
      assert a + b == a;
    } else {
      var most, c := b[..|b| - 1], b[|b| - 1];
      StripAppend(a, most);
      assert (a + b)[..|a + b| - 1] == a + most;
      Regroup(Strip(a), Strip(most), if c == NEWLINE then [] else [c]);
    }
  }

  lemma {:induction false} StripEmptyIff(s: seq<byte>)
    ensures Strip(s) == [] <==> forall k :: 0 <= k < |s| ==> s[k] == NEWLINE
  {
    if s != [] {
      StripEmptyIff(s[..|s| - 1]);
    }
  }

  lemma {:induction false} StripMeaning(s: seq<byte>)
    ensures forall b :: b in Strip(s) <==> b in s && b != 10
  {
    if s != [] {
      var most := s[..|s| - 1];
      StripMeaning(most);
      LastApart(s);
    }
  }

  /** Splitting loses nothing but the newlines. */
  lemma {:induction false} PayloadsKeepBytes(s: seq<byte>)
    ensures Flatten(Payloads(s)) == Strip(s)
    ensures forall b :: b in Strip(s) <==> b in s && b != 10
  {
    StripMeaning(s);
    var (done, open) := Parse(s);
    PayloadsAre(s, done, open);
    DoneKeepsBytes(s);
    if open != [] {
      FlattenStep(NonEmpty(done), open);
    } else {
      assert NonEmpty(done) + [] == NonEmpty(done);
    }
  }

  lemma {:induction false} DoneKeepsBytes(s: seq<byte>)
    ensures Flatten(NonEmpty(Parse(s).0)) + Parse(s).1 == Strip(s)
  {
    if s != [] {
      var most, c := s[..|s| - 1], s[|s| - 1];
      DoneKeepsBytes(most);
      var (done, open) := Parse(most);
      if c == NEWLINE {
        NonEmptyStep(done, open);
        FlattenMaybe(NonEmpty(done), open);
      } else {
        Regroup(Flatten(NonEmpty(done)), open, [c]);
      }
    }
  }

  lemma {:induction false} FlattenMaybe(parts: seq<seq<byte>>, part: seq<byte>)
    ensures Flatten(parts + Closed(part)) + [] == Flatten(parts) + part
  {
    if part == [] {
      assert parts + [] == parts;
    } else {
      FlattenStep(parts, part);
    }
  }
}

/** The client's log tail: the offset it keeps, what it reads at each poll, and what it hands to Request. */
module Tail {
  import opened Bytes
  import opened Lines

  /** What os.WriteFile did to the offset file: it may fail before or after truncating it. */
  datatype Save = Written | Kept | Emptied

  /** lastSize; the number in the offset file, if it holds one; the payloads handed to Request so far. */
  datatype Progress = Progress(lastSize: nat, saved: Option<nat>, sent: seq<seq<byte>>)

  function ReadFrom(lastSize: nat, size: nat): (n: nat)
    ensures n <= size
  {
    if size < lastSize then 0 else lastSize
  }

  function Stored(saved: Option<nat>, size: nat, save: Save): Option<nat> {
    match save case Written => Some(size) case Kept => saved case Emptied => None
  }

  function Restarted(saved: Option<nat>): nat {
    if saved.Some? then saved.value else 0
  }

  /** One turn of the loop. A read that fails still moves the offset. */
  function Polled(p: Progress, file: seq<byte>, readOk: bool, save: Save): Progress {
    var start := ReadFrom(p.lastSize, |file|);
    if |file| == start then p.(lastSize := start)
    else Progress(|file|, Stored(p.saved, |file|, save), p.sent + if readOk then Payloads(file[start..]) else [])
  }

  /** A turn cut short after some sends, and the next start of the client. */
  function Crashed(p: Progress, file: seq<byte>, sends: nat): Progress {
    var lines := Payloads(file[ReadFrom(p.lastSize, |file|)..]);
    Progress(Restarted(p.saved), p.saved, p.sent + lines[..if sends < |lines| then sends else |lines|])
  }

  class LogTail {
    var lastSize: nat
    var offsetFile: Option<nat>
    var sent: seq<seq<byte>>

    ghost function View(): Progress
      reads this
    {
      Progress(lastSize, offsetFile, sent)
    }

    constructor (saved: Option<nat>)
      ensures View() == Progress(Restarted(saved), saved, [])
    {
      lastSize := 0;
      offsetFile, sent := saved, [];
      if saved.Some? {
        lastSize := saved.value;
      }
    }

    method Poll(file: seq<byte>, readOk: bool, save: Save)
      modifies this
      ensures View() == Polled(old(View()), file, readOk, save)
    {
      if |file| < lastSize {
        lastSize := 0;
      }
      if |file| > lastSize {
        if readOk {
          var lines := SplitLines(file[lastSize..]);
          SendLines(lines);
        }
        lastSize := |file|;
        offsetFile := Stored(offsetFile, |file|, save);
      }
    }

    method SendLines(lines: seq<seq<byte>>)
      modifies this`sent
      ensures sent == old(sent) + NonEmpty(lines)
    {
      for i := 0 to |lines|
        invariant sent == old(sent) + NonEmpty(lines[..i])
      {
        NonEmptyStep(lines[..i], lines[i]);
        assert lines[..i + 1] == lines[..i] + [lines[i]];
        if lines[i] != [] {
          sent := sent + [lines[i]];
        }
      }
      assert lines[..|lines|] == lines;
    }
  }

  /** What is observed at a turn, over a file that only grows: its size by then. */
  datatype Turn =
    | Poll(size: nat, readOk: bool, save: Save)
    | Crash(size: nat, sends: nat)

  predicate Grows(file: seq<byte>, start: nat, turns: seq<Turn>) {
    && start <= |file|
    && (forall i :: 0 <= i < |turns| ==> start <= turns[i].size <= |file|)
    && (forall i, j :: 0 <= i < j < |turns| ==> turns[i].size <= turns[j].size)
  }

  function TakeTurn(p: Progress, file: seq<byte>, turn: Turn): Progress
    requires turn.size <= |file|
  {
    match turn
    case Poll(size, readOk, save) => Polled(p, file[..size], readOk, save)
    case Crash(size, sends) => Crashed(p, file[..size], sends)
  }

  function After(p: Progress, file: seq<byte>, turns: seq<Turn>): Progress
    requires Grows(file, 0, turns)
  {
    if turns == [] then p
    else
      var last := |turns| - 1;
      TakeTurn(After(p, file, turns[..last]), file, turns[last])
  }

  /** Where the last turn left the file. */
  function End(start: nat, turns: seq<Turn>): nat {
    if turns == [] then start else turns[|turns| - 1].size
  }

  function LastChunk(file: seq<byte>, start: nat, turns: seq<Turn>): seq<byte>
    requires turns != [] && Grows(file, start, turns)
  {
    file[End(start, turns[..|turns| - 1])..turns[|turns| - 1].size]
  }

  /** What polls alone hand on: chunk after chunk, less those whose read failed. */
  function Handed(file: seq<byte>, start: nat, turns: seq<Turn>): seq<seq<byte>>
    requires Grows(file, start, turns) && forall i :: 0 <= i < |turns| ==> turns[i].Poll?
  {
    if turns == [] then []
    else
      var last := |turns| - 1;
      Handed(file, start, turns[..last]) + if turns[last].readOk then Payloads(LastChunk(file, start, turns)) else []
  }

  lemma RegionGrows(file: seq<byte>, start: nat, turns: seq<Turn>)
    requires turns != [] && Grows(file, start, turns)
    ensures var last := |turns| - 1;
            && Grows(file, start, turns[..last])
            && start <= End(start, turns[..last]) <= turns[last].size == End(start, turns)
            && file[start..End(start, turns)] == file[start..End(start, turns[..last])] + LastChunk(file, start, turns)
  {}

  /** The polls continue each other: each reads from where the one before stopped. */
  lemma {:induction false} PollsContinue(p: Progress, file: seq<byte>, turns: seq<Turn>)
    requires Grows(file, p.lastSize, turns) && forall i :: 0 <= i < |turns| ==> turns[i].Poll?
    ensures After(p, file, turns).lastSize == End(p.lastSize, turns)
    ensures After(p, file, turns).sent == p.sent + Handed(file, p.lastSize, turns)
  {
    if turns != [] {
      var last := |turns| - 1;
      RegionGrows(file, p.lastSize, turns);
      PollsContinue(p, file, turns[..last]);
      PollSends(After(p, file, turns[..last]), file, turns[last]);
      Regroup(p.sent, Handed(file, p.lastSize, turns[..last]), Payloads(LastChunk(file, p.lastSize, turns)));
    }
  }

  lemma PollSends(p: Progress, file: seq<byte>, turn: Turn)
    requires turn.Poll? && p.lastSize <= turn.size <= |file|
    ensures var next := TakeTurn(p, file, turn);
            && next.lastSize == turn.size && next.saved in {p.saved, Some(turn.size), None}
            && next.sent == p.sent + if turn.readOk then Payloads(file[p.lastSize..turn.size]) else []
  {
    assert file[..turn.size][p.lastSize..] == file[p.lastSize..turn.size];
  }

  /** How many bytes other than newlines lay in chunks whose read failed. */
  function Lost(file: seq<byte>, start: nat, turns: seq<Turn>): nat
    requires Grows(file, start, turns) && forall i :: 0 <= i < |turns| ==> turns[i].Poll?
  {
    if turns == [] then 0
    else
      var last := |turns| - 1;
      Lost(file, start, turns[..last]) + if turns[last].readOk then 0 else |Strip(LastChunk(file, start, turns))|
  }

  lemma {:induction false} LostBytes(file: seq<byte>, start: nat, turns: seq<Turn>)
    requires Grows(file, start, turns) && forall i :: 0 <= i < |turns| ==> turns[i].Poll?
    ensures var region, handed := Strip(file[start..End(start, turns)]), Flatten(Handed(file, start, turns));
            && |handed| + Lost(file, start, turns) == |region|
            && (Lost(file, start, turns) == 0 ==> handed == region)
  {
    if turns != [] {
      var last, chunk := |turns| - 1, LastChunk(file, start, turns);
      RegionGrows(file, start, turns);
      LostBytes(file, start, turns[..last]);
      StripAppend(file[start..End(start, turns[..last])], chunk);
      FlattenAppend(Handed(file, start, turns[..last]), if turns[last].readOk then Payloads(chunk) else []);
      PayloadsKeepBytes(chunk);
    }
  }

  /** Turn i read nothing but newlines, or did read. */
  predicate Harmless(file: seq<byte>, start: nat, turns: seq<Turn>, i: nat)
    requires i < |turns| && turns[i].Poll? && Grows(file, start, turns)
  {
    turns[i].readOk || forall k :: End(start, turns[..i]) <= k < turns[i].size ==> file[k] == NEWLINE
  }

  ghost predicate AllHarmless(file: seq<byte>, start: nat, turns: seq<Turn>)
    requires Grows(file, start, turns) && forall i :: 0 <= i < |turns| ==> turns[i].Poll?
  {
    forall i :: 0 <= i < |turns| ==> Harmless(file, start, turns, i)
  }

  lemma HarmlessBefore(file: seq<byte>, start: nat, turns: seq<Turn>, i: nat)
    requires i < |turns| - 1 && turns[i].Poll? && Grows(file, start, turns)
    ensures Harmless(file, start, turns, i) == Harmless(file, start, turns[..|turns| - 1], i)
  {
    assert turns[..|turns| - 1][..i] == turns[..i];
  }

  lemma AllHarmlessStep(file: seq<byte>, start: nat, turns: seq<Turn>)
    requires turns != [] && Grows(file, start, turns) && forall i :: 0 <= i < |turns| ==> turns[i].Poll?
    ensures AllHarmless(file, start, turns) <==>
            AllHarmless(file, start, turns[..|turns| - 1]) && Harmless(file, start, turns, |turns| - 1)
  {
    var last := |turns| - 1;
    var before := turns[..last];
    forall i | 0 <= i < last ensures Harmless(file, start, turns, i) == Harmless(file, start, before, i) {
      HarmlessBefore(file, start, turns, i);
    }
    if AllHarmless(file, start, turns) {
      forall i | 0 <= i < |before| ensures Harmless(file, start, before, i) {
        assert Harmless(file, start, turns, i);
      }
    }
    if AllHarmless(file, start, before) && Harmless(file, start, turns, last) {
      forall i | 0 <= i < |turns| ensures Harmless(file, start, turns, i) {
        assert i < last ==> Harmless(file, start, before, i);
      }
    }
  }

  lemma {:induction false} LostIff(file: seq<byte>, start: nat, turns: seq<Turn>)
    requires Grows(file, start, turns) && forall i :: 0 <= i < |turns| ==> turns[i].Poll?
    ensures Lost(file, start, turns) == 0 <==> AllHarmless(file, start, turns)
  {
    if turns != [] {
      LostIff(file, start, turns[..|turns| - 1]);
      AllHarmlessStep(file, start, turns);
      LastHarmless(file, start, turns);
    }
  }

  lemma LastHarmless(file: seq<byte>, start: nat, turns: seq<Turn>)
    requires turns != [] && Grows(file, start, turns) && turns[|turns| - 1].Poll?
    ensures var last := |turns| - 1;
            Harmless(file, start, turns, last) <==> turns[last].readOk || Strip(LastChunk(file, start, turns)) == []
  {
    var from, chunk := End(start, turns[..|turns| - 1]), LastChunk(file, start, turns);
    StripEmptyIff(chunk);
    if forall k :: 0 <= k < |chunk| ==> chunk[k] == NEWLINE {
      forall k | from <= k < turns[|turns| - 1].size ensures file[k] == NEWLINE {
        assert chunk[k - from] == NEWLINE;
      }
    }
  }

  /**
   No byte is skipped or repeated: the payloads together are the file without its newlines, exactly
   when every chunk whose read failed held nothing but newlines.
   */
  lemma {:induction false} PollsKeepBytesIff(p: Progress, file: seq<byte>, turns: seq<Turn>)
    requires Grows(file, p.lastSize, turns) && forall i :: 0 <= i < |turns| ==> turns[i].Poll?
    ensures Flatten(After(p, file, turns).sent) == Flatten(p.sent) + Strip(file[p.lastSize..End(p.lastSize, turns)])
            <==> AllHarmless(file, p.lastSize, turns)
  {
    PollsContinue(p, file, turns);
    FlattenAppend(p.sent, Handed(file, p.lastSize, turns));
    LostBytes(file, p.lastSize, turns);
    LostIff(file, p.lastSize, turns);
  }

  /** A newline lies on one side of position p, or p is an end of the region. */
  predicate CleanAt(file: seq<byte>, start: nat, p: nat, end: nat)
    requires start <= p <= end <= |file|
  {
    p == start || p == end || file[p - 1] == NEWLINE || file[p] == NEWLINE
  }

  lemma CleanAtIsClean(file: seq<byte>, start: nat, p: nat, end: nat)
    requires start <= p <= end <= |file|
    ensures CleanAt(file, start, p, end) <==> Clean(file[start..p], file[p..end])
  {}

  /** At how many polls the region read so far was cut inside a line. */
  function Dirty(file: seq<byte>, start: nat, turns: seq<Turn>): nat
    requires Grows(file, start, turns)
  {
    if turns == [] then 0
    else
      var last := |turns| - 1;
      var cut := End(start, turns[..last]);
      Dirty(file, start, turns[..last]) + if CleanAt(file, start, cut, turns[last].size) then 0 else 1
  }

  lemma {:induction false} DirtyIff(file: seq<byte>, start: nat, turns: seq<Turn>)
    requires Grows(file, start, turns)
    ensures Dirty(file, start, turns) == 0 <==>
            forall i :: 0 <= i < |turns| ==> CleanAt(file, start, turns[i].size, End(start, turns))
  {
    if turns != [] {
      var last := |turns| - 1;
      RegionGrows(file, start, turns);
      DirtyIff(file, start, turns[..last]);
      if last > 0 {
        assert End(start, turns[..last]) == turns[last - 1].size;
      }
    }
  }

  lemma {:induction false} ExtraPayloads(file: seq<byte>, start: nat, turns: seq<Turn>)
    requires Grows(file, start, turns)
    requires forall i :: 0 <= i < |turns| ==> turns[i].Poll? && turns[i].readOk
    ensures var region, handed := Payloads(file[start..End(start, turns)]), Handed(file, start, turns);
            && |handed| == |region| + Dirty(file, start, turns)
            && (Dirty(file, start, turns) == 0 ==> handed == region)
  {
    if turns != [] {
      var last, chunk := |turns| - 1, LastChunk(file, start, turns);
      var cut := End(start, turns[..last]);
      RegionGrows(file, start, turns);
      ExtraPayloads(file, start, turns[..last]);
      CleanAtIsClean(file, start, cut, turns[last].size);
      PayloadsOfCut(file[start..cut], chunk);
    }
  }

  /** The payload sequence is that of the whole file exactly when no poll cut a line in two. */
  lemma {:induction false} PollsSendLinesIff(p: Progress, file: seq<byte>, turns: seq<Turn>)
    requires Grows(file, p.lastSize, turns)
    requires forall i :: 0 <= i < |turns| ==> turns[i].Poll? && turns[i].readOk
    ensures var end := End(p.lastSize, turns);
            After(p, file, turns).sent == p.sent + Payloads(file[p.lastSize..end])
            <==> forall i :: 0 <= i < |turns| ==> CleanAt(file, p.lastSize, turns[i].size, end)
  {
    PollsContinue(p, file, turns);
    ExtraPayloads(file, p.lastSize, turns);
    DirtyIff(file, p.lastSize, turns);
    SamePrefix(p.sent, Handed(file, p.lastSize, turns), Payloads(file[p.lastSize..End(p.lastSize, turns)]));
  }

  lemma SamePrefix<T>(a: seq<T>, b: seq<T>, c: seq<T>)
    ensures a + b == a + c <==> b == c
  {
    if a + b == a + c {
      assert b == (a + b)[|a|..] && c == (a + c)[|a|..];
    }
  }

  /** Every line that ends by n was handed on at least as often as it occurs. */
  ghost predicate SentUpTo(file: seq<byte>, n: nat, sent: seq<seq<byte>>) {
    n <= |file| && AtBoundary(file[..n]) && multiset(Payloads(file[..n])) <= multiset(sent)
  }

  lemma SentMore(file: seq<byte>, n: nat, sent: seq<seq<byte>>, more: seq<seq<byte>>)
    requires SentUpTo(file, n, sent)
    ensures SentUpTo(file, n, sent + more)
  {}

  lemma SentFurther(file: seq<byte>, n: nat, m: nat, sent: seq<seq<byte>>)
    requires SentUpTo(file, n, sent) && n <= m <= |file| && AtBoundary(file[..m])
    ensures SentUpTo(file, m, sent + Payloads(file[n..m]))
  {
    assert file[..m] == file[..n] + file[n..m];
    PayloadsOfCut(file[..n], file[n..m]);
  }

  lemma SentUpToStart(file: seq<byte>, sent: seq<seq<byte>>)
    ensures SentUpTo(file, 0, sent)
  {
    assert file[..0] == [] && Payloads(file[..0]) == [];
  }

  /** Both offsets, in memory and on restart, are within the file and covered by what was sent. */
  ghost predicate Covered(p: Progress, file: seq<byte>, size: nat) {
    && p.lastSize <= size && Restarted(p.saved) <= size
    && SentUpTo(file, p.lastSize, p.sent) && SentUpTo(file, Restarted(p.saved), p.sent)
  }

  lemma PollKeepsCovered(p: Progress, next: Progress, file: seq<byte>, before: nat, size: nat)
    requires before <= size <= |file| && AtBoundary(file[..size]) && Covered(p, file, before)
    requires next.lastSize == size && next.saved in {p.saved, Some(size), None}
    requires next.sent == p.sent + Payloads(file[p.lastSize..size])
    ensures Covered(next, file, size)
  {
    SentFurther(file, p.lastSize, size, p.sent);
    SentMore(file, Restarted(p.saved), p.sent, Payloads(file[p.lastSize..size]));
    SentUpToStart(file, next.sent);
  }

  lemma CrashKeepsCovered(p: Progress, file: seq<byte>, before: nat, turn: Turn)
    requires turn.Crash? && before <= turn.size <= |file| && Covered(p, file, before)
    ensures Covered(TakeTurn(p, file, turn), file, turn.size)
  {
    var lines := Payloads(file[..turn.size][ReadFrom(p.lastSize, turn.size)..]);
    SentMore(file, Restarted(p.saved), p.sent, lines[..if turn.sends < |lines| then turn.sends else |lines|]);
  }

  /**
   Over crashes, restarts and lost or emptied offset files: if each poll finds whole lines and its
   read succeeds, every line below the offset was handed on at least once per occurrence.
   */
  lemma {:induction false} LinesSentAtLeastOnce(file: seq<byte>, turns: seq<Turn>)
    requires Grows(file, 0, turns)
    requires forall i :: 0 <= i < |turns| ==> AtBoundary(file[..turns[i].size]) && (turns[i].Poll? ==> turns[i].readOk)
    ensures Covered(After(Progress(0, None, []), file, turns), file, End(0, turns))
  {
    if turns == [] {
      SentUpToStart(file, []);
    } else {
      var last := |turns| - 1;
      RegionGrows(file, 0, turns);
      LinesSentAtLeastOnce(file, turns[..last]);
      var p := After(Progress(0, None, []), file, turns[..last]);
      if turns[last].Poll? {
        PollSends(p, file, turns[last]);
        PollKeepsCovered(p, TakeTurn(p, file, turns[last]), file, End(0, turns[..last]), turns[last].size);
      } else {
        CrashKeepsCovered(p, file, End(0, turns[..last]), turns[last]);
      }
    }
  }

  /** A turn that is cut short has sent a beginning of what the whole turn would send. */
  lemma CrashSendsBeginning(p: Progress, file: seq<byte>, sends: nat, save: Save)
    ensures var cut, whole := Crashed(p, file, sends).sent, Polled(p, file, true, save).sent;
            && p.sent <= cut <= whole
            && |cut| == if |p.sent| + sends < |whole| then |p.sent| + sends else |whole|
  {
    var start := ReadFrom(p.lastSize, |file|);
    if |file| == start {
      assert file[start..] == [] && Payloads(file[start..]) == [];
    }
  }

  /**
   Where reading starts again after a restart that follows a poll of new bytes: behind them if the
   offset was saved, where the saved offset was before if that failed, and at the beginning if the
   file of the offset was left empty. Nothing that was sent is taken back.
   */
  lemma RestartResumes(p: Progress, file: seq<byte>, readOk: bool, save: Save)
    requires p.lastSize < |file|
    ensures var polled := Polled(p, file, readOk, save);
            var restarted := Crashed(polled, file, 0);
            && restarted.sent == polled.sent && polled.lastSize == |file|
            && (save.Written? ==> restarted.lastSize == |file|)
            && (save.Kept? ==> restarted.lastSize == if p.saved.Some? then p.saved.value else 0)
            && (save.Emptied? ==> restarted.lastSize == 0)
  {
    var polled := Polled(p, file, readOk, save);
    assert polled.sent + [] == polled.sent;
  }

  /**
   A log emptied between two polls resets the offset in memory but not in its file: after a restart,
   the beginning of the new log is passed over exactly when it has grown to the old size by then.
   */
  lemma EmptiedThenRestarted(p: Progress, log: seq<byte>, readOk: bool, save: Save)
    requires p.saved.Some? && p.lastSize == p.saved.value > 0 && log != []
    ensures var restarted := Crashed(Polled(p, [], readOk, save), [], 0);
            && Polled(p, [], readOk, save).lastSize == 0
            && Polled(restarted, log, true, Written).lastSize == |log|
            && (ReadFrom(restarted.lastSize, |log|) == 0 <==> |log| < p.lastSize)
  {}
}
