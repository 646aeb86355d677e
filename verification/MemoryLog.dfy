/** The memory log: the newest lines within its limits, and viewers that poll for the lines since a sequence number. */
module MemoryLog {
  import opened Unicode
  import opened Transcoding
  import opened Json
  import opened Sequences
  import C = CrashText

  const CUT_MARKER: seq<byte> := [0x20, 0x5B, 0x63, 0x75, 0x74, 0x5D]  // " [cut]"

  // ---- Cutting a text to fit -----------------------------------------------------

  /** The last place up to 'size' where a cut doesn't split a character. */
  function BackTo(text: seq<byte>, size: nat): (kept: nat)
    requires size < |text|
    ensures kept <= size
  {
    if size == 0 || !IsTail(text[size]) then size else BackTo(text, size - 1)
  }

  function CutText(text: seq<byte>, maxBytes: nat): (cut: seq<byte>)
    ensures |cut| <= maxBytes
  {
    if |text| <= maxBytes then text
    else if maxBytes >= |CUT_MARKER| then text[..BackTo(text, maxBytes - |CUT_MARKER|)] + CUT_MARKER
    else text[..BackTo(text, maxBytes)]
  }

  lemma {:induction false} BackToIs(text: seq<byte>, size: nat, kept: nat)
    requires kept <= size < |text| && (kept == 0 || !IsTail(text[kept]))
    requires forall i :: kept < i <= size ==> IsTail(text[i])
    ensures BackTo(text, size) == kept
  {
    if kept < size {
      BackToIs(text, size - 1, kept);
    }
  }

  method CutToFit(text: seq<byte>, maxBytes: nat) returns (cut: seq<byte>)
    ensures cut == CutText(text, maxBytes)
  {
    if |text| <= maxBytes {
      return text;
    }
    var hasMarker := maxBytes >= |CUT_MARKER|;
    var size := if hasMarker then maxBytes - |CUT_MARKER| else maxBytes;
    var kept := C.BackToCharacter(text, size);
    BackToIs(text, size, kept);
    cut := text[..kept];
    if hasMarker {
      cut := cut + CUT_MARKER;
    }
  }

  /** A text over the limit is cut at the last place that leaves room for the marker, if there can be any, and isn't inside
      a character. */
  lemma CutKeepsMost(text: seq<byte>, maxBytes: nat) returns (kept: nat)
    ensures |text| <= maxBytes ==> CutText(text, maxBytes) == text
    ensures |text| > maxBytes ==>
      var marker := if maxBytes >= 6 then Ascii(" [cut]") else [];
      && kept + |marker| <= maxBytes && CutText(text, maxBytes) == text[..kept] + marker
      && (kept == 0 || !(0x80 <= text[kept] < 0xC0))
      && forall i :: kept < i && i + |marker| <= maxBytes ==> 0x80 <= text[i] < 0xC0
  {
    kept := 0;
    if |text| > maxBytes {
      assert CUT_MARKER == Ascii(" [cut]");
      var size := if maxBytes >= 6 then maxBytes - 6 else maxBytes;
      kept := BackTo(text, size);
      BackToIsLast(text, size);
      assert text[..kept] + [] == text[..kept];
    }
  }

  lemma {:induction false} BackToIsLast(text: seq<byte>, size: nat)
    requires size < |text|
    ensures var kept := BackTo(text, size);
      (kept == 0 || !IsTail(text[kept])) && forall i :: kept < i <= size ==> IsTail(text[i])
  {
    if size > 0 && IsTail(text[size]) {
      BackToIsLast(text, size - 1);
    }
  }

  lemma TailsOfCharacter(text: seq<byte>)
    requires CharacterLength(text) > 0
    ensures !IsTail(text[0]) && forall i :: 1 <= i < CharacterLength(text) ==> IsTail(text[i])
  {
    var n := CharacterLength(text);
    var bytes := text[..n];
    assert IsCharacter(bytes) && forall i :: 0 <= i < n ==> bytes[i] == text[i];
  }

  /** Well-formed text is cut between characters. */
  lemma {:induction false} BackToIsBetween(text: seq<byte>, size: nat)
    requires WellFormed8(text) && size < |text|
    ensures WellFormed8(text[..BackTo(text, size)])
    decreases |text|
  {
    hide CharacterLength, IsTail;
    var n, kept := CharacterLength(text), BackTo(text, size);
    TailsOfCharacter(text);
    if size < n {
      BackInFirst(text, size);
    } else {
      BackToRest(text, n, size);
      BackToIsBetween(text[n..], size - n);
      WellFormedJoins(text, n, kept);
    }
  }

  lemma FirstIsCharacter(text: seq<byte>)
    requires CharacterLength(text) > 0
    ensures IsCharacter(text[..CharacterLength(text)])
  {
  }

  lemma WellFormedJoins(text: seq<byte>, n: nat, kept: nat)
    requires 0 < n == CharacterLength(text) <= kept <= |text| && WellFormed8(text[n..][..kept - n])
    ensures WellFormed8(text[..kept])
  {
    FirstIsCharacter(text);
    hide CharacterLength, IsCharacter;
    var front := text[..kept];
    assert front[..n] == text[..n];
    assert front[n..] == text[n..][..kept - n];
    CharacterIsFound(front, n);
  }

  lemma {:induction false} BackInFirst(text: seq<byte>, size: nat)
    requires size < |text| && forall i :: 1 <= i <= size ==> IsTail(text[i])
    ensures BackTo(text, size) == 0
  {
    if size > 0 {
      BackInFirst(text, size - 1);
    }
  }

  lemma {:induction false} BackToRest(text: seq<byte>, n: nat, size: nat)
    requires 0 < n <= size < |text| && WellFormed8(text[n..])
    ensures BackTo(text, size) == n + BackTo(text[n..], size - n)
    decreases size
  {
    hide CharacterLength;
    assert text[n..][size - n] == text[size];
    if size == n {
      TailsOfCharacter(text[n..]);
    } else if IsTail(text[size]) {
      BackToRest(text, n, size - 1);
    }
  }

  /** Cutting keeps text well-formed. */
  lemma CutIsWellFormed(text: seq<byte>, maxBytes: nat)
    requires WellFormed8(text)
    ensures WellFormed8(CutText(text, maxBytes))
  {
    if |text| > maxBytes {
      var size := if maxBytes >= |CUT_MARKER| then maxBytes - |CUT_MARKER| else maxBytes;
      var front := text[..BackTo(text, size)];
      BackToIsBetween(text, size);
      if maxBytes >= |CUT_MARKER| {
        assert CUT_MARKER + [] == CUT_MARKER;
        AsciiAppended(CUT_MARKER, []);
        WellFormedAppends(front, CUT_MARKER);
      }
    }
  }

  lemma {:induction false} WellFormedAppends(a: seq<byte>, b: seq<byte>)
    requires WellFormed8(a) && WellFormed8(b)
    ensures WellFormed8(a + b)
    decreases |a|
  {
    if a == [] {
      assert a + b == b;
    } else {
      var n := CharacterLength(a);
      assert (a + b)[..n] == a[..n] && (a + b)[n..] == a[n..] + b;
      CharacterIsFound(a + b, n);
      WellFormedAppends(a[n..], b);
    }
  }

  // ---- The lines kept --------------------------------------------------------------------

  type line = seq<byte>

  function ByteCount(lines: seq<line>): nat {
    if lines == [] then 0 else |lines[0]| + ByteCount(lines[1..])
  }

  /** A limit of 0 is none. */
  predicate Fits(lines: seq<line>, maxLines: nat, maxBytes: nat) {
    (maxLines == 0 || |lines| <= maxLines) && (maxBytes == 0 || ByteCount(lines) <= maxBytes)
  }

  /** The lines left when the oldest are dropped until the rest fits. */
  function Fitting(lines: seq<line>, maxLines: nat, maxBytes: nat): seq<line> {
    if lines == [] || Fits(lines, maxLines, maxBytes) then lines else Fitting(lines[1..], maxLines, maxBytes)
  }

  lemma {:induction false} FittingIsEnd(lines: seq<line>, maxLines: nat, maxBytes: nat)
    ensures var kept := Fitting(lines, maxLines, maxBytes);
      |kept| <= |lines| && kept == lines[|lines| - |kept|..]
  {
    if lines != [] && !Fits(lines, maxLines, maxBytes) {
      FittingIsEnd(lines[1..], maxLines, maxBytes);
    }
  }

  /** That is the longest end of the lines that fits. */
  lemma {:induction false} FittingIsLongest(lines: seq<line>, maxLines: nat, maxBytes: nat, k: nat)
    requires k <= |lines|
    ensures Fits(Fitting(lines, maxLines, maxBytes), maxLines, maxBytes)
    ensures Fits(lines[k..], maxLines, maxBytes) ==> |lines| - k <= |Fitting(lines, maxLines, maxBytes)|
  {
    if lines != [] && !Fits(lines, maxLines, maxBytes) {
      if k == 0 {
        assert lines[0..] == lines;
        FittingIsLongest(lines[1..], maxLines, maxBytes, 0);
      } else {
        assert lines[1..][k - 1..] == lines[k..];
        FittingIsLongest(lines[1..], maxLines, maxBytes, k - 1);
      }
    }
  }

  /** A line that fits by itself is never dropped for being too long. */
  lemma LastIsKept(lines: seq<line>, maxLines: nat, maxBytes: nat)
    requires lines != [] && (maxBytes == 0 || |lines[|lines| - 1]| <= maxBytes)
    ensures var kept := Fitting(lines, maxLines, maxBytes);
      kept != [] && kept[|kept| - 1] == lines[|lines| - 1]
  {
    var last := lines[|lines| - 1..];
    assert last == [lines[|lines| - 1]] && last[1..] == [];
    assert ByteCount(last) == |last[0]| + ByteCount(last[1..]);
    FittingIsEnd(lines, maxLines, maxBytes);
    FittingIsLongest(lines, maxLines, maxBytes, |lines| - 1);
  }

  lemma {:induction false} ByteCountAppended(lines: seq<line>, l: line)
    ensures ByteCount(lines + [l]) == ByteCount(lines) + |l|
  {
    if lines != [] {
      assert (lines + [l])[1..] == lines[1..] + [l];
      ByteCountAppended(lines[1..], l);
    }
  }

  lemma DropsOldest(history: seq<line>, lines: seq<line>, maxLines: nat, maxBytes: nat)
    requires lines != [] && |lines| <= |history| && lines == history[|history| - |lines|..]
    ensures lines[1..] == history[|history| - |lines[1..]|..] && ByteCount(lines) == |lines[0]| + ByteCount(lines[1..])
    ensures !Fits(lines, maxLines, maxBytes) ==> Fitting(lines, maxLines, maxBytes) == Fitting(lines[1..], maxLines, maxBytes)
  {
  }

  lemma NothingToDrop(lines: seq<line>, maxLines: nat, maxBytes: nat)
    ensures ByteCount([]) == 0
    ensures lines == [] || Fits(lines, maxLines, maxBytes) ==> Fitting(lines, maxLines, maxBytes) == lines
  {
  }

  lemma EndGrows(history: seq<line>, lines: seq<line>, l: line)
    requires |lines| <= |history| && lines == history[|history| - |lines|..]
    ensures lines + [l] == (history + [l])[|history + [l]| - |lines + [l]|..]
  {
  }

  datatype Lines = Lines(lines: seq<line>, next: nat, missed: nat)

  /** What a viewer that asks for the lines from 'sequence' on gets, when 'history' are all lines written so far: the last
      of them that are kept, after a gap of those no longer kept. */
  ghost predicate IsAnswer(history: seq<line>, keptCount: nat, sequence: nat, answer: Lines) {
    var first := if sequence == 0 then 1 else sequence;
    && answer.next == |history| + 1
    && (first <= answer.next ==> first + answer.missed + |answer.lines| == answer.next &&
                                 answer.lines == history[first - 1 + answer.missed..] &&
                                 |answer.lines| <= keptCount && (answer.missed > 0 ==> |answer.lines| == keptCount))
    && (first > answer.next ==> answer.lines == [] && answer.missed == 0)
  }

  class TASWMemoryLog {
    var lines: seq<line>
    var byteCount: nat
    var nextSequence: nat
    var maxLines: nat
    var maxBytes: nat
    ghost var history: seq<line>

    /** The kept lines are the end of all lines written, and their bytes are counted. */
    ghost predicate Consistent()
      reads this
    {
      && |lines| <= |history| && lines == history[|history| - |lines|..]
      && byteCount == ByteCount(lines) && nextSequence == |history| + 1
    }

    ghost predicate Valid()
      reads this
    {
      Consistent() && Fits(lines, maxLines, maxBytes)
    }

    constructor ()
      ensures Valid() && history == lines == [] && maxLines == maxBytes == 0
    {
      lines, byteCount, nextSequence, maxLines, maxBytes, history := [], 0, 1, 0, 0, [];
    }

    method DropOldestLines()
      requires Consistent()
      modifies this`lines, this`byteCount
      ensures Valid() && lines == Fitting(old(lines), maxLines, maxBytes)
    {
      hide Fitting, ByteCount;
      FittingIsLongest(lines, maxLines, maxBytes, 0);
      while lines != [] && ((maxLines > 0 && |lines| > maxLines) || (maxBytes > 0 && byteCount > maxBytes))
        invariant Consistent() && Fitting(lines, maxLines, maxBytes) == Fitting(old(lines), maxLines, maxBytes)
        decreases |lines|
      {
        DropsOldest(history, lines, maxLines, maxBytes);
        byteCount := byteCount - |lines[0]|;
        lines := lines[1..];
      }
      NothingToDrop(lines, maxLines, maxBytes);
    }

    /** Adds the line, cut to the byte limit; it is kept whatever else has to go. */
    method WriteLine(formatted: line, endsLine: bool, ending: line)
      requires Valid()
      modifies this
      ensures Valid() && maxLines == old(maxLines) && maxBytes == old(maxBytes)
      ensures var text := if endsLine && EndsWith(formatted, ending) then formatted[..|formatted| - |ending|] else formatted;
        var added := if maxBytes > 0 then CutText(text, maxBytes) else text;
        && added == KeptText(formatted, endsLine, ending, maxBytes) && history == old(history) + [added]
        && lines == Fitting(old(lines) + [added], maxLines, maxBytes)
        && lines != [] && lines[|lines| - 1] == added
    {
      hide Fitting, ByteCount, CutText, EndsWith;
      var text := formatted;
      if endsLine {
        if EndsWith(text, ending) {
          EndingIsShorter(text, ending);
          text := text[..|text| - |ending|];
        }
      }
      if maxBytes > 0 {
        text := CutToFit(text, maxBytes);
      }
      ByteCountAppended(lines, text);
      LastIsKept(lines + [text], maxLines, maxBytes);
      EndGrows(history, lines, text);
      lines, history := lines + [text], history + [text];
      byteCount := byteCount + |text|;
      nextSequence := nextSequence + 1;
      DropOldestLines();
    }

    method Clear()
      requires Valid()
      modifies this
      ensures Valid() && lines == [] && history == old(history) && maxLines == old(maxLines) && maxBytes == old(maxBytes)
    {
      lines, byteCount := [], 0;
    }

    method ApplyLimits(newMaxLines: nat, newMaxBytes: nat)
      requires Valid()
      modifies this
      ensures Valid() && maxLines == newMaxLines && maxBytes == newMaxBytes && history == old(history)
      ensures lines == Fitting(old(lines), newMaxLines, newMaxBytes)
    {
      maxLines, maxBytes := newMaxLines, newMaxBytes;
      DropOldestLines();
    }

    method GetLinesSince(sequence: nat) returns (answer: Lines)
      requires Valid()
      ensures IsAnswer(history, |lines|, sequence, answer)
    {
      var first := if sequence > 1 then sequence else 1;
      var oldestKept := nextSequence - |lines|;
      answer := Lines([], nextSequence, 0);
      if first < oldestKept {
        answer := answer.(missed := oldestKept - first);
      }
      if first < nextSequence {
        var skipped := (if first > oldestKept then first else oldestKept) - oldestKept;
        assert lines[skipped..] == history[|history| - |lines|..][skipped..] == history[|history| - |lines| + skipped..];
        answer := answer.(lines := lines[skipped..]);
      }
    }
  }

  lemma EndingIsShorter(text: line, ending: line)
    requires EndsWith(text, ending)
    ensures |ending| <= |text|
  {
  }

  predicate EndsWith(text: line, ending: line) {
    |ending| <= |text| && text[|text| - |ending|..] == ending
  }

  /** A formatted line without the ending it ends with, cut to the byte limit. */
  function KeptText(formatted: line, endsLine: bool, ending: line, maxBytes: nat): line {
    var text := if endsLine && EndsWith(formatted, ending) then formatted[..|formatted| - |ending|] else formatted;
    if maxBytes > 0 then CutText(text, maxBytes) else text
  }

  // ---- A viewer that polls -----------------------------------------------------------------

  /** A poll, with the lines written until then and how many of them were kept. */
  datatype Poll = Poll(history: seq<line>, keptCount: nat, answer: Lines)

  /** What a viewer asks for: the lines from 1 on, then from the last answer's next sequence number on. */
  function Asks(polls: seq<Poll>, i: nat): nat
    requires i <= |polls|
  {
    if i == 0 then 1 else polls[i - 1].answer.next
  }

  /** The answers to a viewer's polls, while the log goes on writing, clearing and dropping lines. */
  ghost predicate ArePolls(polls: seq<Poll>) {
    && (forall i: nat :: i < |polls| ==> IsAnswer(polls[i].history, polls[i].keptCount, Asks(polls, i), polls[i].answer))
    && (forall i, j :: 0 <= i < j < |polls| ==> polls[i].history <= polls[j].history)
  }

  datatype Seen = Missed | Got(l: line)

  function Misses(count: nat): (seen: seq<Seen>)
    ensures |seen| == count && forall i :: 0 <= i < count ==> seen[i] == Missed
  {
    if count == 0 then [] else Misses(count - 1) + [Missed]
  }

  function Gets(lines: seq<line>): (seen: seq<Seen>)
    ensures |seen| == |lines| && forall i :: 0 <= i < |lines| ==> seen[i] == Got(lines[i])
  {
    if lines == [] then [] else Gets(lines[..|lines| - 1]) + [Got(lines[|lines| - 1])]
  }

  /** What the viewer was told, poll after poll. */
  function SeenBy(polls: seq<Poll>): seq<Seen> {
    if polls == [] then []
    else
      var last := polls[|polls| - 1].answer;
      SeenBy(polls[..|polls| - 1]) + (Misses(last.missed) + Gets(last.lines))
  }

  lemma PollsBefore(polls: seq<Poll>)
    requires ArePolls(polls) && polls != []
    ensures ArePolls(polls[..|polls| - 1])
  {
    hide IsAnswer;
    var before := polls[..|polls| - 1];
    forall i: nat | i < |before| ensures Asks(before, i) == Asks(polls, i) && before[i] == polls[i] {
    }
  }

  lemma LastPoll(polls: seq<Poll>)
    requires ArePolls(polls) && polls != []
    ensures var n := |polls| - 1;
      && IsAnswer(polls[n].history, polls[n].keptCount, Asks(polls, n), polls[n].answer)
      && Asks(polls, n) == (if n > 0 then |polls[n - 1].history| + 1 else 1) <= |polls[n].history| + 1
  {
    var n := |polls| - 1;
    if n > 0 {
      assert IsAnswer(polls[n - 1].history, polls[n - 1].keptCount, Asks(polls, n - 1), polls[n - 1].answer);
    }
  }

  lemma {:induction false} SeenCount(polls: seq<Poll>)
    requires ArePolls(polls)
    ensures |SeenBy(polls)| == if polls == [] then 0 else |polls[|polls| - 1].history|
    decreases |polls|
  {
    hide ArePolls, IsAnswer, Told;
    if polls != [] {
      var n := |polls| - 1;
      LastPoll(polls);
      PollsBefore(polls);
      SeenCount(polls[..n]);
      AnswerTells(polls[n], Asks(polls, n));
    }
  }

  /** What a poll tells of line i + 1: that it missed it, exactly if it is no longer kept. */
  function Told(poll: Poll, i: nat): Seen
    requires i < |poll.history|
  {
    if i + poll.keptCount < |poll.history| then Missed else Got(poll.history[i])
  }

  /** 'seen' is what the poll tells of each line from the one at 'start' on. */
  ghost predicate Tells(seen: seq<Seen>, poll: Poll, start: nat) {
    start + |seen| == |poll.history| && forall i :: 0 <= i < |seen| ==> seen[i] == Told(poll, start + i)
  }

  lemma AnswerTells(poll: Poll, sequence: nat)
    requires IsAnswer(poll.history, poll.keptCount, sequence, poll.answer) && 1 <= sequence <= |poll.history| + 1
    ensures Tells(Misses(poll.answer.missed) + Gets(poll.answer.lines), poll, sequence - 1)
    ensures poll.answer.next == |poll.history| + 1
  {
    var seen := Misses(poll.answer.missed) + Gets(poll.answer.lines);
    forall i | 0 <= i < |seen| ensures seen[i] == Told(poll, sequence - 1 + i) {
      if i >= poll.answer.missed {
        assert seen[i] == Got(poll.answer.lines[i - poll.answer.missed]);
      }
    }
  }

  lemma SeenMore(polls: seq<Poll>, poll: Poll)
    ensures SeenBy(polls + [poll]) == SeenBy(polls) + (Misses(poll.answer.missed) + Gets(poll.answer.lines))
  {
    assert (polls + [poll])[..|polls|] == polls;
  }

  lemma LastTells(polls: seq<Poll>, i: nat)
    requires ArePolls(polls) && polls != []
    requires var n := |polls| - 1; Asks(polls, n) - 1 <= i < |polls[n].history|
    ensures var n := |polls| - 1; |SeenBy(polls)| == |polls[n].history| && SeenBy(polls)[i] == Told(polls[n], i)
  {
    hide ArePolls, IsAnswer, Told, SeenBy, Misses, Gets;
    var n := |polls| - 1;
    var before, last := polls[..n], polls[n];
    LastPoll(polls);
    PollsBefore(polls);
    SeenCount(before);
    AnswerTells(last, Asks(polls, n));
    assert before + [last] == polls;
    SeenMore(before, last);
    var more := Misses(last.answer.missed) + Gets(last.answer.lines);
    assert (SeenBy(before) + more)[i] == more[i - |SeenBy(before)|];
  }

  lemma EarlierStays(polls: seq<Poll>, i: nat)
    requires polls != [] && i < |SeenBy(polls[..|polls| - 1])|
    ensures i < |SeenBy(polls)| && SeenBy(polls)[i] == SeenBy(polls[..|polls| - 1])[i]
  {
  }

  /** The viewer is told of each line written exactly once and in order: entry i is about line i + 1, and is what the poll
      that covers that line tells of it. */
  lemma {:induction false} EachLineOnce(polls: seq<Poll>, i: nat) returns (j: nat)
    requires ArePolls(polls) && polls != [] && i < |polls[|polls| - 1].history|
    ensures |SeenBy(polls)| == |polls[|polls| - 1].history|
    ensures j < |polls| && Asks(polls, j) - 1 <= i < |polls[j].history| && SeenBy(polls)[i] == Told(polls[j], i)
    decreases |polls|
  {
    hide ArePolls, IsAnswer, Told, SeenBy;
    var n := |polls| - 1;
    LastPoll(polls);
    SeenCount(polls);
    if n > 0 && i < |polls[n - 1].history| {
      PollsBefore(polls);
      j := EachLineOnce(polls[..n], i);
      EarlierStays(polls, i);
    } else {
      LastTells(polls, i);
      j := n;
    }
  }

  // ---- A log and its viewers -----------------------------------------------------------------

  datatype Step =
    | Writes(formatted: line, endsLine: bool, ending: line)
    | Clears
    | Limits(maxLines: nat, maxBytes: nat)
    | Polls(viewer: nat)

  /** All lines written, those kept, and the limits. */
  datatype Log = Log(history: seq<line>, lines: seq<line>, maxLines: nat, maxBytes: nat)

  function Next(log: Log, step: Step): Log {
    match step
    case Writes(formatted, endsLine, ending) =>
      var added := KeptText(formatted, endsLine, ending, log.maxBytes);
      log.(history := log.history + [added], lines := Fitting(log.lines + [added], log.maxLines, log.maxBytes))
    case Clears => log.(lines := [])
    case Limits(maxLines, maxBytes) => Log(log.history, Fitting(log.lines, maxLines, maxBytes), maxLines, maxBytes)
    case Polls(_) => log
  }

  function After(steps: seq<Step>): Log {
    if steps == [] then Log([], [], 0, 0) else Next(After(steps[..|steps| - 1]), steps[|steps| - 1])
  }

  function AnswerTo(history: seq<line>, keptCount: nat, sequence: nat): (answer: Lines)
    ensures IsAnswer(history, keptCount, sequence, answer)
  {
    var first, next := if sequence == 0 then 1 else sequence, |history| + 1;
    if first > next then Lines([], next, 0)
    else
      var count := if keptCount < next - first then keptCount else next - first;
      Lines(history[|history| - count..], next, next - first - count)
  }

  lemma OnlyAnswer(history: seq<line>, keptCount: nat, sequence: nat, answer: Lines)
    requires IsAnswer(history, keptCount, sequence, answer)
    ensures answer == AnswerTo(history, keptCount, sequence)
  {
  }

  /** The polls of one viewer among any number of them. */
  function PollsOf(steps: seq<Step>, viewer: nat): seq<Poll> {
    if steps == [] then []
    else
      var n := |steps| - 1;
      var polls, log := PollsOf(steps[..n], viewer), After(steps[..n]);
      if steps[n] != Polls(viewer) then polls
      else polls + [Poll(log.history, |log.lines|, AnswerTo(log.history, |log.lines|, Asks(polls, |polls|)))]
  }

  /** How many lines are gone. */
  function Gone(log: Log): int {
    |log.history| - |log.lines|
  }

  lemma NeverComesBack(log: Log, step: Step)
    ensures log.history <= Next(log, step).history && Gone(log) <= Gone(Next(log, step))
  {
    hide KeptText;
    match step
    case Writes(formatted, endsLine, ending) =>
      FittingIsEnd(log.lines + [KeptText(formatted, endsLine, ending, log.maxBytes)], log.maxLines, log.maxBytes);
    case Limits(maxLines, maxBytes) => FittingIsEnd(log.lines, maxLines, maxBytes);
    case _ =>
  }

  /** A poll of the log as it was some time before. */
  ghost predicate IsEarlier(poll: Poll, log: Log) {
    poll.history <= log.history && |poll.history| - poll.keptCount <= Gone(log)
  }

  lemma {:induction false} PollsOfRun(steps: seq<Step>, viewer: nat)
    ensures var polls := PollsOf(steps, viewer);
      && ArePolls(polls) && (forall j :: 0 <= j < |polls| ==> IsEarlier(polls[j], After(steps)))
      && (steps != [] && steps[|steps| - 1] == Polls(viewer) ==>
            polls != [] && polls[|polls| - 1].history == After(steps).history)
  {
    hide IsAnswer, Fitting, KeptText;
    if steps != [] {
      var n := |steps| - 1;
      var before, polls := PollsOf(steps[..n], viewer), PollsOf(steps, viewer);
      PollsOfRun(steps[..n], viewer);
      NeverComesBack(After(steps[..n]), steps[n]);
      if steps[n] == Polls(viewer) {
        PollsAppended(before, After(steps[..n]));
      }
    }
  }

  lemma PollsAppended(polls: seq<Poll>, log: Log)
    requires ArePolls(polls) && forall j :: 0 <= j < |polls| ==> IsEarlier(polls[j], log)
    ensures ArePolls(polls + [Poll(log.history, |log.lines|, AnswerTo(log.history, |log.lines|, Asks(polls, |polls|)))])
  {
    hide IsAnswer;
    var last := Poll(log.history, |log.lines|, AnswerTo(log.history, |log.lines|, Asks(polls, |polls|)));
    var after := polls + [last];
    forall i: nat | i < |after| ensures IsAnswer(after[i].history, after[i].keptCount, Asks(after, i), after[i].answer) {
      assert i < |polls| ==> after[i] == polls[i] && Asks(after, i) == Asks(polls, i);
      assert i == |polls| ==> after[i] == last && Asks(after, i) == Asks(polls, |polls|);
    }
  }

  /** In every run and for each of its viewers: it has been told of the lines up to its last poll, each once and in order,
      and of every one of them that is still kept it got the text. */
  lemma EveryViewerIsTold(steps: seq<Step>, viewer: nat)
    ensures var log, seen := After(steps), SeenBy(PollsOf(steps, viewer));
      && |seen| <= |log.history|
      && (forall i :: 0 <= i < |seen| ==> seen[i] == Got(log.history[i]) || (seen[i] == Missed && i < Gone(log)))
      && (steps != [] && steps[|steps| - 1] == Polls(viewer) ==> |seen| == |log.history|)
  {
    hide After, PollsOf, ArePolls;
    var log, polls := After(steps), PollsOf(steps, viewer);
    PollsOfRun(steps, viewer);
    if polls != [] {
      SeenCount(polls);
      assert IsEarlier(polls[|polls| - 1], log);
      forall i | 0 <= i < |SeenBy(polls)|
        ensures SeenBy(polls)[i] == Got(log.history[i]) || (SeenBy(polls)[i] == Missed && i < Gone(log))
      {
        var j := EachLineOnce(polls, i);
        assert IsEarlier(polls[j], log);
      }
    }
  }

  function SeenOf(seen: map<nat, seq<Seen>>, viewer: nat): seq<Seen> {
    if viewer in seen then seen[viewer] else []
  }

  function NextOf(next: map<nat, nat>, viewer: nat): nat {
    if viewer in next then next[viewer] else 1
  }

  ghost predicate Matches(log: TASWMemoryLog, steps: seq<Step>)
    reads log
  {
    log.Valid() && After(steps) == Log(log.history, log.lines, log.maxLines, log.maxBytes)
  }

  /** Each viewer was told what its polls say, and asks for the lines from there on. */
  ghost predicate AreTold(seen: map<nat, seq<Seen>>, next: map<nat, nat>, steps: seq<Step>) {
    forall v: nat :: var polls := PollsOf(steps, v);
      SeenOf(seen, v) == SeenBy(polls) && NextOf(next, v) == Asks(polls, |polls|)
  }

  lemma OneMore(steps: seq<Step>, step: Step)
    ensures After(steps + [step]) == Next(After(steps), step)
    ensures forall v: nat :: var polls, log := PollsOf(steps, v), After(steps);
      PollsOf(steps + [step], v) ==
        if step != Polls(v) then polls
        else polls + [Poll(log.history, |log.lines|, AnswerTo(log.history, |log.lines|, Asks(polls, |polls|)))]
  {
    assert (steps + [step])[..|steps|] == steps;
  }

  lemma PollTells(seen: map<nat, seq<Seen>>, next: map<nat, nat>, steps: seq<Step>, viewer: nat, answer: Lines)
    requires AreTold(seen, next, steps)
    requires var log := After(steps); IsAnswer(log.history, |log.lines|, NextOf(next, viewer), answer)
    ensures AreTold(seen[viewer := SeenOf(seen, viewer) + (Misses(answer.missed) + Gets(answer.lines))],
                    next[viewer := answer.next], steps + [Polls(viewer)])
  {
    hide After, PollsOf, SeenBy, IsAnswer, AnswerTo;
    var log, polls := After(steps), PollsOf(steps, viewer);
    OneMore(steps, Polls(viewer));
    assert NextOf(next, viewer) == Asks(polls, |polls|);
    OnlyAnswer(log.history, |log.lines|, NextOf(next, viewer), answer);
    SeenMore(polls, Poll(log.history, |log.lines|, answer));
  }

  method DoStep(log: TASWMemoryLog, seen: map<nat, seq<Seen>>, next: map<nat, nat>, step: Step, ghost steps: seq<Step>)
      returns (told: map<nat, seq<Seen>>, asks: map<nat, nat>)
    requires Matches(log, steps) && AreTold(seen, next, steps)
    modifies log
    ensures Matches(log, steps + [step]) && AreTold(told, asks, steps + [step])
  {
    hide After, PollsOf, SeenBy, IsAnswer, KeptText, Fitting, ByteCount;
    told, asks := seen, next;
    OneMore(steps, step);
    match step {
      case Writes(formatted, endsLine, ending) => log.WriteLine(formatted, endsLine, ending);
      case Clears => log.Clear();
      case Limits(maxLines, maxBytes) => log.ApplyLimits(maxLines, maxBytes);
      case Polls(viewer) =>
        var answer := log.GetLinesSince(NextOf(next, viewer));
        PollTells(seen, next, steps, viewer, answer);
        told := seen[viewer := SeenOf(seen, viewer) + (Misses(answer.missed) + Gets(answer.lines))];
        asks := next[viewer := answer.next];
    }
  }

  /** Whatever is done with a new log, in any order, by any number of viewers: each has been told of each line up to its
      last poll once and in order, and got every one of them that is still kept. */
  method DoSteps(steps: seq<Step>) returns (log: TASWMemoryLog, seen: map<nat, seq<Seen>>)
    ensures fresh(log) && log.Valid() && After(steps) == Log(log.history, log.lines, log.maxLines, log.maxBytes)
    ensures forall v: nat :: SeenOf(seen, v) == SeenBy(PollsOf(steps, v)) && |SeenOf(seen, v)| <= |log.history|
    ensures forall v: nat, i: nat | i < |SeenOf(seen, v)| ::
              SeenOf(seen, v)[i] == Got(log.history[i])
              || (SeenOf(seen, v)[i] == Missed && i < |log.history| - |log.lines|)
    ensures forall v: nat :: steps != [] && steps[|steps| - 1] == Polls(v) ==> |SeenOf(seen, v)| == |log.history|
  {
    hide After, PollsOf, SeenBy, Fits;
    log := new TASWMemoryLog();
    var next: map<nat, nat> := map[];
    seen := map[];
    NoSteps();
    assert steps[..0] == [];
    for i := 0 to |steps|
      invariant fresh(log) && Matches(log, steps[..i]) && AreTold(seen, next, steps[..i])
    {
      seen, next := DoStep(log, seen, next, steps[i], steps[..i]);
      assert steps[..i] + [steps[i]] == steps[..i + 1];
    }
    assert steps[..|steps|] == steps;
    forall v: nat {
      EveryViewerIsTold(steps, v);
    }
  }

  lemma NoSteps()
    ensures After([]) == Log([], [], 0, 0) && SeenBy([]) == [] && forall v: nat :: PollsOf([], v) == []
  {
  }
}
