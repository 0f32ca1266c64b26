/**
  The share text that `handleShare` in App.tsx composes for a result: a
  score line, the bracketed title, the flattened summary and a hashtag,
  joined by newlines and fitted to a 100-code-unit budget.

  Strings are sequences of UTF-16 code units, which is what JavaScript's
  `length` and `substring` count. The score line is formatted by the caller
  and taken as an input.
 */
module Share {
  import opened Types

  const LF: CodeUnit := 0x000A
  const CR: CodeUnit := 0x000D
  const SPACE: CodeUnit := 0x0020
  /** "…" (U+2026). */
  const ELLIPSIS: CodeUnit := 0x2026
  /** "「" (U+300C) and "」" (U+300D). */
  const LEFT_CORNER: CodeUnit := 0x300C
  const RIGHT_CORNER: CodeUnit := 0x300D
  /** "#VRChat". */
  const HASHTAG: Text := [0x23, 0x56, 0x52, 0x43, 0x68, 0x61, 0x74]

  /** Most code units the share text is meant to have. */
  const BUDGET: int := 100
  /** Longest title kept as it is. */
  const TITLE_MAX: nat := 10

  function Clamp(i: int, n: nat): (r: nat)
    ensures r <= n
  {
    if i < 0 then 0 else if i > n then n else i
  }

  /**
    `String.prototype.substring`: both bounds are clamped into [0, |s|] and
    swapped when the first is the larger.
   */
  function Substring(s: Text, start: int, end: int): (r: Text)
    ensures |r| <= |s|
    ensures 0 <= start <= end <= |s| ==> r == s[start..end]
    ensures start <= 0 && end <= 0 ==> r == []
    ensures forall c | c in r :: c in s
  {
    var a, b := Clamp(start, |s|), Clamp(end, |s|);
    if a <= b then s[a..b] else s[b..a]
  }

  /** Titles over ten code units keep their first nine and gain an ellipsis. */
  function TruncateTitle(title: Text): (r: Text)
    ensures |r| <= TITLE_MAX
    ensures |title| <= TITLE_MAX ==> r == title
    ensures |title| > TITLE_MAX ==>
              && |r| == TITLE_MAX
              && r[..TITLE_MAX - 1] == title[..TITLE_MAX - 1]
              && r[TITLE_MAX - 1] == ELLIPSIS
  {
    if |title| > TITLE_MAX then Substring(title, 0, TITLE_MAX - 1) + [ELLIPSIS] else title
  }

  /** The second line: the shortened title in corner brackets. */
  function TitleLine(title: Text): (r: Text)
    ensures 2 <= |r| <= TITLE_MAX + 2
    ensures r[0] == LEFT_CORNER && r[|r| - 1] == RIGHT_CORNER
    ensures r[1..|r| - 1] == TruncateTitle(title)
  {
    [LEFT_CORNER] + TruncateTitle(title) + [RIGHT_CORNER]
  }

  /**
    The global replacement of the pattern `\r?\n` by a space: scanning left to right, each CR LF
    pair and each remaining LF becomes one space. A CR not followed by LF stays.
   */
  function NormalizeNewlines(s: Text): (r: Text)
    ensures LF !in r
    ensures |r| <= |s|
  {
    if |s| == 0 then []
    else if s[0] == CR && |s| >= 2 && s[1] == LF then [SPACE] + NormalizeNewlines(s[2..])
    else if s[0] == LF then [SPACE] + NormalizeNewlines(s[1..])
    else [s[0]] + NormalizeNewlines(s[1..])
  }

  /** First of the two passes of the reference definition: drop every CR that precedes an LF. */
  function DropCrBeforeLf(s: Text): Text {
    if |s| == 0 then []
    else if s[0] == CR && |s| >= 2 && s[1] == LF then DropCrBeforeLf(s[1..])
    else [s[0]] + DropCrBeforeLf(s[1..])
  }

  /** Second pass: every LF becomes a space, everything else stays. */
  function LfToSpace(s: Text): Text {
    if |s| == 0 then []
    else [if s[0] == LF then SPACE else s[0]] + LfToSpace(s[1..])
  }

  /**
    The summary fitted to `maxLength`: kept when it fits, otherwise cut to
    `maxLength - 1` code units plus an ellipsis. As with `substring`, a
    non-positive cut leaves the ellipsis alone.
   */
  function TruncateSummary(s: Text, maxLength: int): (r: Text)
    ensures |s| <= maxLength ==> r == s
    ensures |s| > maxLength && maxLength >= 1 ==>
              && |r| == maxLength
              && r[..maxLength - 1] == s[..maxLength - 1]
              && r[maxLength - 1] == ELLIPSIS
    ensures |s| > maxLength && maxLength < 1 ==> r == [ELLIPSIS]
    ensures maxLength >= 1 ==> |r| <= maxLength
    ensures LF !in s ==> LF !in r
  {
    if |s| > maxLength then Substring(s, 0, maxLength - 1) + [ELLIPSIS] else s
  }

  /** Code units taken by everything but the summary, the three newlines included. */
  function FixedLength(scoreLine: Text, title: Text): int {
    |scoreLine| + |TitleLine(title)| + |HASHTAG| + 3
  }

  function MaxSummaryLength(scoreLine: Text, title: Text): int {
    BUDGET - FixedLength(scoreLine, title)
  }

  /** The third line: the flattened summary fitted to what the budget leaves. */
  function SummaryLine(scoreLine: Text, title: Text, summary: Text): Text {
    TruncateSummary(NormalizeNewlines(summary), MaxSummaryLength(scoreLine, title))
  }

  /** `a + "\n" + b`. */
  function JoinLine(a: Text, b: Text): (r: Text)
    ensures |r| == |a| + 1 + |b|
  {
    a + [LF] + b
  }

  /** The text handed to the share target: the four lines joined by newlines. */
  function ShareText(scoreLine: Text, title: Text, summary: Text): (r: Text)
    ensures |r| == FixedLength(scoreLine, title) + |SummaryLine(scoreLine, title, summary)|
  {
    JoinLine(scoreLine, JoinLine(TitleLine(title), JoinLine(SummaryLine(scoreLine, title, summary), HASHTAG)))
  }

  /** `text.split("\n")`: the pieces between newlines, never none. */
  function Lines(s: Text): (r: seq<Text>)
    ensures |r| >= 1
    ensures forall i | 0 <= i < |r| :: LF !in r[i]
  {
    if |s| == 0 then [[]]
    else
      var rest := Lines(s[1..]);
      if s[0] == LF then [[]] + rest
      else [[s[0]] + rest[0]] + rest[1..]
  }

  /** Shortening a title twice is shortening it once. */
  lemma TruncateTitleIdempotent(title: Text)
    ensures TruncateTitle(TruncateTitle(title)) == TruncateTitle(title)
  {
  }

  /**
    The one-pass replacement equals the two-pass reference: drop each CR
    that precedes an LF, then turn every LF into a space.
   */
  lemma {:induction false} NormalizeIsTwoPass(s: Text)
    ensures NormalizeNewlines(s) == LfToSpace(DropCrBeforeLf(s))
  {
    if |s| == 0 {
    } else if s[0] == CR && |s| >= 2 && s[1] == LF {
      NormalizeIsTwoPass(s[2..]);
      assert s[1..][1..] == s[2..];
      assert DropCrBeforeLf(s[1..]) == [LF] + DropCrBeforeLf(s[2..]);
      assert ([LF] + DropCrBeforeLf(s[2..]))[1..] == DropCrBeforeLf(s[2..]);
    } else {
      NormalizeIsTwoPass(s[1..]);
      var t := DropCrBeforeLf(s[1..]);
      assert DropCrBeforeLf(s) == [s[0]] + t;
      assert ([s[0]] + t)[1..] == t;
    }
  }

  /** The summary is left alone exactly when it has no line feed. */
  lemma {:induction false} NormalizeUnchangedIff(s: Text)
    ensures NormalizeNewlines(s) == s <==> LF !in s
  {
    if |s| > 0 && LF !in s {
      assert LF !in s[1..] by {
        assert forall c | c in s[1..] :: c in s;
      }
      NormalizeUnchangedIff(s[1..]);
      assert !(s[0] == CR && |s| >= 2 && s[1] == LF) by {
        if |s| >= 2 { assert s[1] in s; }
      }
      assert s[0] != LF by { assert s[0] in s; }
      assert s == [s[0]] + s[1..];
    }
  }

  /** The fixed part is at most 22 code units longer than the score line. */
  lemma ShareTextLength(scoreLine: Text, title: Text, summary: Text)
    ensures FixedLength(scoreLine, title) <= |scoreLine| + 22
  {
  }

  /**
    Whenever the fixed part leaves room for at least one summary code unit,
    the share text stays within the budget, and fills it exactly when the
    flattened summary is at least as long as the room left (it was cut, or
    it fills the room exactly).
   */
  lemma ShareTextWithinBudget(scoreLine: Text, title: Text, summary: Text)
    requires MaxSummaryLength(scoreLine, title) >= 1
    ensures |ShareText(scoreLine, title, summary)| <= BUDGET
    ensures |ShareText(scoreLine, title, summary)| == BUDGET
        <==> |NormalizeNewlines(summary)| >= MaxSummaryLength(scoreLine, title)
  {
  }

  /**
    The budget holds exactly when the fixed part leaves room for a summary
    code unit, or leaves none and the summary is empty; otherwise the lone
    ellipsis pushes the text past it.
   */
  lemma ShareTextBudgetIff(scoreLine: Text, title: Text, summary: Text)
    ensures |ShareText(scoreLine, title, summary)| <= BUDGET
        <==> MaxSummaryLength(scoreLine, title) >= 1
             || (MaxSummaryLength(scoreLine, title) == 0 && |NormalizeNewlines(summary)| == 0)
  {
  }

  /** A score line of at most 77 code units always leaves room for the summary. */
  lemma ShortScoreLineFits(scoreLine: Text, title: Text, summary: Text)
    requires |scoreLine| <= 77
    ensures MaxSummaryLength(scoreLine, title) >= 1
    ensures |ShareText(scoreLine, title, summary)| <= BUDGET
  {
    ShareTextWithinBudget(scoreLine, title, summary);
  }

  lemma {:induction false} LinesWithoutSeparator(a: Text)
    requires LF !in a
    ensures Lines(a) == [a]
  {
    if |a| > 0 {
      assert a[0] in a;
      assert forall c | c in a[1..] :: c in a;
      LinesWithoutSeparator(a[1..]);
      assert a == [a[0]] + a[1..];
    }
  }

  /** Splitting `a + "\n" + b` at newlines gives `a` and then the pieces of `b`. */
  lemma {:induction false} LinesJoin(a: Text, b: Text)
    requires LF !in a
    ensures Lines(a + [LF] + b) == [a] + Lines(b)
  {
    var s := a + [LF] + b;
    if |a| == 0 {
      assert s == [LF] + b && s[1..] == b;
    } else {
      assert a[0] in a;
      assert forall c | c in a[1..] :: c in a;
      assert s[1..] == JoinLine(a[1..], b);
      LinesJoin(a[1..], b);
      assert a == [a[0]] + a[1..];
    }
  }

  /** Four newline-free pieces joined by newlines split back into those four. */
  lemma LinesOfFour(a: Text, b: Text, c: Text, d: Text)
    requires LF !in a && LF !in b && LF !in c && LF !in d
    ensures Lines(JoinLine(a, JoinLine(b, JoinLine(c, d)))) == [a, b, c, d]
  {
    LinesWithoutSeparator(d);
    LinesJoin(c, d);
    LinesJoin(b, JoinLine(c, d));
    LinesJoin(a, JoinLine(b, JoinLine(c, d)));
    assert [a] + ([b] + ([c] + [d])) == [a, b, c, d];
  }

  /**
    When neither the score line nor the title holds a newline, splitting the
    share text at newlines recovers its four lines.
   */
  lemma ShareTextLines(scoreLine: Text, title: Text, summary: Text)
    requires LF !in scoreLine && LF !in title
    ensures Lines(ShareText(scoreLine, title, summary))
         == [scoreLine, TitleLine(title), SummaryLine(scoreLine, title, summary), HASHTAG]
  {
    assert LF !in TruncateTitle(title) by {
      if |title| > TITLE_MAX {
        assert forall c | c in Substring(title, 0, TITLE_MAX - 1) :: c in title;
      }
    }
    assert LF !in TitleLine(title);
    assert LF !in HASHTAG;
    LinesOfFour(scoreLine, TitleLine(title), SummaryLine(scoreLine, title, summary), HASHTAG);
  }
}
