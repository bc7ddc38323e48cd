/**
  The small text computations the note list and the editor display:
  the content preview (`getNotePreview`), the relative date (`formatDate`),
  the word count (`updateWordCount`) and the note count (`updateNoteCount`).
 */
module Display {
  import opened Text

  // ---------------------------------------------------------------------------
  // getNotePreview
  // ---------------------------------------------------------------------------

  /** How many characters of the content a preview keeps. */
  const PreviewLength: nat := 100

  /** The marker appended to a cut preview. */
  const Ellipsis: string := "..."

  /** What the list shows for a note without content. */
  const NoContent: string := "No content"

  /** `getNotePreview(content)` */
  function NotePreview(content: string): (r: string)
    ensures content == "" ==> r == NoContent
    ensures content != "" && |content| <= PreviewLength ==> r == content
    ensures |content| > PreviewLength ==>
              |r| == PreviewLength + |Ellipsis| && r[..PreviewLength] == content[..PreviewLength]
              && r[PreviewLength..] == Ellipsis
  {
    if content == "" then NoContent
    else if |content| > PreviewLength then content[..PreviewLength] + Ellipsis
    else content
  }

  /** A preview is at most 103 characters long, and previewing a preview changes nothing. */
  lemma PreviewIdempotent(content: string)
    ensures |NotePreview(content)| <= PreviewLength + |Ellipsis|
    ensures NotePreview(NotePreview(content)) == NotePreview(content)
  {
    var p := NotePreview(content);
    if |content| > PreviewLength {
      assert p[..PreviewLength] + Ellipsis == p;
    }
  }

  // ---------------------------------------------------------------------------
  // formatDate
  // ---------------------------------------------------------------------------

  /** Milliseconds in a day. */
  const MillisPerDay: nat := 1000 * 60 * 60 * 24

  /** `Math.ceil(Math.abs(now - date) / (1000 * 60 * 60 * 24))` on whole milliseconds. */
  function DayDifference(nowMs: int, dateMs: int): (d: nat)
    ensures var gap := if nowMs >= dateMs then nowMs - dateMs else dateMs - nowMs;
            (d - 1) * MillisPerDay < gap <= d * MillisPerDay
  {
    var gap := if nowMs >= dateMs then nowMs - dateMs else dateMs - nowMs;
    (gap + MillisPerDay - 1) / MillisPerDay
  }

  /** `formatDate` as written: the day difference 0 falls into the "days ago" branch. */
  function FormatDateAsWritten(diffDays: nat, calendarDate: string): string
  {
    if diffDays == 1 then "Today"
    else if diffDays == 2 then "Yesterday"
    else if diffDays <= 7 then IntToString(diffDays - 1) + " days ago"
    else calendarDate
  }

  /** A note rendered in the same millisecond it was saved is labelled "-1 days ago". */
  lemma SameInstantLabel(t: int, calendarDate: string)
    ensures DayDifference(t, t) == 0
    ensures FormatDateAsWritten(DayDifference(t, t), calendarDate) == "-1 days ago"
  {
    assert NatToString(1) == "1";
  }

  /** `formatDate` with a gap under one whole day (including none) labelled "Today". */
  function FormatDate(diffDays: nat, calendarDate: string): string
  {
    if diffDays <= 1 then "Today"
    else if diffDays == 2 then "Yesterday"
    else if diffDays <= 7 then IntToString(diffDays - 1) + " days ago"
    else calendarDate
  }

  /**
    The corrected label agrees with the code for every gap of at least one day, and its
    "N days ago" form always names a count from 2 to 6 that reads back from the label.
   */
  lemma FormatDateSpec(diffDays: nat, calendarDate: string)
    ensures diffDays >= 1 ==> FormatDate(diffDays, calendarDate) == FormatDateAsWritten(diffDays, calendarDate)
    ensures diffDays <= 1 ==> FormatDate(diffDays, calendarDate) == "Today"
    ensures diffDays == 2 ==> FormatDate(diffDays, calendarDate) == "Yesterday"
    ensures 3 <= diffDays <= 7 ==>
              (var shown := FormatDate(diffDays, calendarDate);
               |shown| == 10 && shown[1..] == " days ago" && '2' <= shown[0] <= '6'
               && DigitsValue(shown[..1]) == diffDays - 1)
    ensures diffDays > 7 ==> FormatDate(diffDays, calendarDate) == calendarDate
  {
    if 3 <= diffDays <= 7 {
      var shown := FormatDate(diffDays, calendarDate);
      assert NatToString(diffDays - 1) == [DigitChar(diffDays - 1)];
      assert shown == [DigitChar(diffDays - 1)] + " days ago";
      assert shown[..1] == [DigitChar(diffDays - 1)];
    }
  }

  // ---------------------------------------------------------------------------
  // updateWordCount: content.trim() ? content.trim().split(/\s+/).length : 0
  // ---------------------------------------------------------------------------

  predicate AllSpace(s: string)
  {
    forall i :: 0 <= i < |s| ==> IsSpace(s[i])
  }

  /** Drop leading white space. */
  function TrimStart(s: string): (r: string)
    ensures |r| <= |s|
  {
    if s != [] && IsSpace(s[0]) then TrimStart(s[1..]) else s
  }

  /** Drop trailing white space. */
  function TrimEnd(s: string): (r: string)
    ensures |r| <= |s|
  {
    if s != [] && IsSpace(s[|s| - 1]) then TrimEnd(s[..|s| - 1]) else s
  }

  /** `s.trim()` */
  function Trim(s: string): string
  {
    TrimEnd(TrimStart(s))
  }

  /** The index of the first white-space character, or `|s|` when there is none. */
  function FirstSpace(s: string, from: nat): (i: nat)
    requires from <= |s|
    ensures from <= i <= |s|
    ensures forall k :: from <= k < i ==> !IsSpace(s[k])
    ensures i < |s| ==> IsSpace(s[i])
    decreases |s| - from
  {
    if from == |s| || IsSpace(s[from]) then from else FirstSpace(s, from + 1)
  }

  /** The end of the white-space run that starts at `from`. */
  function EndOfSpaces(s: string, from: nat): (j: nat)
    requires from <= |s|
    ensures from <= j <= |s|
    ensures forall k :: from <= k < j ==> IsSpace(s[k])
    ensures j < |s| ==> !IsSpace(s[j])
    decreases |s| - from
  {
    if from == |s| || !IsSpace(s[from]) then from else EndOfSpaces(s, from + 1)
  }

  /** `s.split(/\s+/)`: the pieces between the maximal white-space runs. */
  function Split(s: string): seq<string>
    decreases |s|
  {
    var i := FirstSpace(s, 0);
    if i == |s| then [s]
    else [s[..i]] + Split(s[EndOfSpaces(s, i)..])
  }

  /** The word count shown under the editor. */
  function WordCount(content: string): (r: nat)
    ensures r == 0 <==> AllSpace(content)
  {
    var t := Trim(content);
    TrimSpec(content);
    if t != "" then |Split(t)| else 0
  }

  /** Places where a white-space character is directly followed by a word character. */
  function SpaceToWord(s: string): nat
  {
    if |s| < 2 then 0
    else (if IsSpace(s[0]) && !IsSpace(s[1]) then 1 else 0) + SpaceToWord(s[1..])
  }

  /** The number of words: positions holding a word character at the start or after white space. */
  function WordStarts(s: string): nat
  {
    (if s != [] && !IsSpace(s[0]) then 1 else 0) + SpaceToWord(s)
  }

  lemma {:induction false} TrimStartSpec(s: string)
    ensures TrimStart(s) == [] <==> AllSpace(s)
    ensures TrimStart(s) != [] ==> !IsSpace(TrimStart(s)[0])
    ensures WordStarts(TrimStart(s)) == WordStarts(s)
    ensures TrimStart(s) != [] && !IsSpace(s[|s| - 1]) ==> !IsSpace(TrimStart(s)[|TrimStart(s)| - 1])
  {
    if s != [] && IsSpace(s[0]) {
      TrimStartSpec(s[1..]);
      assert AllSpace(s) <==> AllSpace(s[1..]) by {
        if AllSpace(s[1..]) {
          forall i | 0 <= i < |s| ensures IsSpace(s[i]) {
            if i > 0 { assert s[i] == s[1..][i - 1]; }
          }
        }
      }
    }
  }

  lemma {:induction false} SpaceToWordDropLast(s: string)
    requires s != [] && IsSpace(s[|s| - 1])
    ensures SpaceToWord(s) == SpaceToWord(s[..|s| - 1])
  {
    if |s| > 2 {
      SpaceToWordDropLast(s[1..]);
      assert s[1..][..|s[1..]| - 1] == s[..|s| - 1][1..];
    }
  }

  lemma {:induction false} TrimEndSpec(s: string)
    requires s != [] ==> !IsSpace(s[0])
    ensures TrimEnd(s) == [] <==> s == []
    ensures TrimEnd(s) != [] ==> !IsSpace(TrimEnd(s)[0]) && !IsSpace(TrimEnd(s)[|TrimEnd(s)| - 1])
    ensures WordStarts(TrimEnd(s)) == WordStarts(s)
  {
    if s != [] && IsSpace(s[|s| - 1]) {
      var init := s[..|s| - 1];
      SpaceToWordDropLast(s);
      TrimEndSpec(init);
    }
  }

  /** Dropping leading white space leaves a suffix, and what it drops is white space. */
  lemma {:induction false} TrimStartSlice(s: string)
    ensures |TrimStart(s)| <= |s|
    ensures TrimStart(s) == s[|s| - |TrimStart(s)|..] && AllSpace(s[..|s| - |TrimStart(s)|])
  {
    if s != [] && IsSpace(s[0]) {
      var t := s[1..];
      TrimStartSlice(t);
      var i := |s| - |TrimStart(s)|;
      assert t[i - 1..] == s[i..];
      assert forall k :: 0 < k < i ==> s[..i][k] == t[..i - 1][k - 1];
    }
  }

  /** Dropping trailing white space leaves a prefix, and what it drops is white space. */
  lemma {:induction false} TrimEndSlice(s: string)
    ensures |TrimEnd(s)| <= |s|
    ensures TrimEnd(s) == s[..|TrimEnd(s)|] && AllSpace(s[|TrimEnd(s)|..])
  {
    if s != [] && IsSpace(s[|s| - 1]) {
      var t := s[..|s| - 1];
      TrimEndSlice(t);
      var j := |TrimEnd(s)|;
      assert t[..j] == s[..j];
      assert forall k :: 0 <= k < |s| - 1 - j ==> s[j..][k] == t[j..][k];
    }
  }

  /** Trimming keeps one slice of the text and drops only white space around it. */
  lemma TrimSlice(s: string)
    ensures exists i, j :: 0 <= i <= j <= |s| && Trim(s) == s[i..j] && AllSpace(s[..i]) && AllSpace(s[j..])
  {
    var t := TrimStart(s);
    TrimStartSlice(s);
    TrimEndSlice(t);
    var i := |s| - |t|;
    var j := i + |TrimEnd(t)|;
    assert t == s[i..];
    assert t[..|TrimEnd(t)|] == s[i..j];
    assert t[|TrimEnd(t)|..] == s[j..];
    assert Trim(s) == s[i..j] && AllSpace(s[..i]) && AllSpace(s[j..]);
  }

  /**
    Trimming removes exactly the leading and trailing white space: it leaves nothing for blank
    text, otherwise text with a word character at both ends and the same number of words.
   */
  lemma TrimSpec(s: string)
    ensures exists i, j :: 0 <= i <= j <= |s| && Trim(s) == s[i..j] && AllSpace(s[..i]) && AllSpace(s[j..])
    ensures Trim(s) == [] <==> AllSpace(s)
    ensures Trim(s) != [] ==> !IsSpace(Trim(s)[0]) && !IsSpace(Trim(s)[|Trim(s)| - 1])
    ensures WordStarts(Trim(s)) == WordStarts(s)
  {
    TrimStartSpec(s);
    TrimEndSpec(TrimStart(s));
    TrimSlice(s);
  }

  /** No space-to-word step happens before index `k`, so dropping the first `k` characters loses none. */
  lemma {:induction false} SpaceToWordDrop(s: string, k: nat)
    requires k < |s|
    requires forall m :: 0 <= m < k ==> !(IsSpace(s[m]) && !IsSpace(s[m + 1]))
    ensures SpaceToWord(s) == SpaceToWord(s[k..])
  {
    if k > 0 {
      assert s[1..][k - 1..] == s[k..];
      SpaceToWordDrop(s[1..], k - 1);
    }
  }

  /** On text with a word character at both ends, `split(/\s+/)` yields one piece per word. */
  lemma {:induction false} SplitCountsWords(s: string)
    requires s != [] && !IsSpace(s[0]) && !IsSpace(s[|s| - 1])
    ensures |Split(s)| == WordStarts(s)
    decreases |s|
  {
    var i := FirstSpace(s, 0);
    if i == |s| {
      SpaceToWordDrop(s, |s| - 1);
    } else {
      var j := EndOfSpaces(s, i);
      assert j < |s|;
      var rest := s[j..];
      SplitCountsWords(rest);
      SpaceToWordDrop(s, j - 1);
      assert s[j - 1..][1..] == rest;
    }
  }

  /** The word count is the number of maximal runs of non-white-space characters; blank text has none. */
  lemma WordCountIsWordStarts(content: string)
    ensures WordCount(content) == WordStarts(content)
  {
    TrimSpec(content);
    if Trim(content) != "" {
      SplitCountsWords(Trim(content));
    } else {
      assert WordStarts(content) == WordStarts([]);
    }
  }

  // ---------------------------------------------------------------------------
  // updateNoteCount
  // ---------------------------------------------------------------------------

  /** `${count} note${count !== 1 ? 's' : ''}` */
  function NoteCountLabel(count: nat): string
  {
    NatToString(count) + " note" + (if count != 1 then "s" else "")
  }

  /** The label is the decimal count followed by " note", plural exactly when the count is not 1. */
  lemma NoteCountLabelSpec(count: nat)
    ensures var shown := NoteCountLabel(count);
            var k := |shown| - (if count == 1 then 5 else 6);
            0 < k && (forall i :: 0 <= i < k ==> '0' <= shown[i] <= '9')
            && DigitsValue(shown[..k]) == count
            && shown[k..] == (if count == 1 then " note" else " notes")
    ensures NoteCountLabel(count)[|NoteCountLabel(count)| - 1] == 's' <==> count != 1
    ensures NoteCountLabel(count)[0] == '0' ==> count == 0
  {
    var shown := NoteCountLabel(count);
    var k := |NatToString(count)|;
    assert shown[..k] == NatToString(count);
    NatToStringRoundTrip(count);
  }
}
