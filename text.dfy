/**
 * `clean_text` of backend/app/scraper.py: every run of whitespace becomes a
 * single space (`re.sub(r'\s+', ' ', text)`), then both ends are stripped
 * (`str.strip()`); a missing or empty text gives "".
 *
 * The model follows the code step by step (CollapseSpaces, then Strip) and
 * proves it equal to an independent reference, `" ".join(text.split())`,
 * written here as JoinWords(Words(text)).
 */
module Text {
  import opened Options

  /** Python's `str.isspace()`; the `\s` class of a `str` regex is the same set. */
  predicate IsSpace(c: char)
  {
    || ('\U{9}' <= c <= '\U{D}')
    || ('\U{1C}' <= c <= '\U{20}')
    || c == '\U{85}' || c == '\U{A0}' || c == '\U{1680}'
    || ('\U{2000}' <= c <= '\U{200A}')
    || c == '\U{2028}' || c == '\U{2029}' || c == '\U{202F}' || c == '\U{205F}' || c == '\U{3000}'
  }

  ghost predicate AllSpace(s: string)
  {
    forall i :: 0 <= i < |s| ==> IsSpace(s[i])
  }

  ghost predicate NoSpace(s: string)
  {
    forall i :: 0 <= i < |s| ==> !IsSpace(s[i])
  }

  /** No whitespace at either end. */
  ghost predicate Trimmed(s: string)
  {
    |s| > 0 ==> !IsSpace(s[0]) && !IsSpace(s[|s| - 1])
  }

  /** Every whitespace character is a plain space and no two are adjacent. */
  ghost predicate SingleSpaced(s: string)
  {
    && (forall i :: 0 <= i < |s| && IsSpace(s[i]) ==> s[i] == ' ')
    && (forall i :: 0 <= i < |s| - 1 && IsSpace(s[i]) ==> !IsSpace(s[i + 1]))
  }

  /** The shape of everything `clean_text` returns. */
  ghost predicate Cleaned(s: string)
  {
    Trimmed(s) && SingleSpaced(s)
  }

  /** Length of the whitespace run at the start of s. */
  function LeadingSpaces(s: string): (n: nat)
    ensures n <= |s|
    ensures forall i :: 0 <= i < n ==> IsSpace(s[i])
    ensures n < |s| ==> !IsSpace(s[n])
  {
    if |s| > 0 && IsSpace(s[0]) then 1 + LeadingSpaces(s[1..]) else 0
  }

  /** Length of the non-whitespace run at the start of s. */
  function WordLength(s: string): (n: nat)
    ensures n <= |s|
    ensures forall i :: 0 <= i < n ==> !IsSpace(s[i])
    ensures n < |s| ==> IsSpace(s[n])
  {
    if |s| > 0 && !IsSpace(s[0]) then 1 + WordLength(s[1..]) else 0
  }

  /** `re.sub(r'\s+', ' ', s)`: each maximal whitespace run becomes one space. */
  function CollapseSpaces(s: string): string
    decreases |s|
  {
    if |s| == 0 then ""
    else if IsSpace(s[0]) then " " + CollapseSpaces(s[LeadingSpaces(s)..])
    else [s[0]] + CollapseSpaces(s[1..])
  }

  function StripRight(s: string): string
    decreases |s|
  {
    if |s| > 0 && IsSpace(s[|s| - 1]) then StripRight(s[..|s| - 1]) else s
  }

  /** `str.strip()` without arguments. */
  function Strip(s: string): string
  {
    StripRight(s[LeadingSpaces(s)..])
  }

  /** `clean_text(text)`; `None` stands for a missing text. */
  function CleanText(text: Option<string>): string
  {
    match text
    case None => ""
    case Some(s) => if s == "" then "" else Strip(CollapseSpaces(s))
  }

  // ---------------------------------------------------------------------
  // Reference definition: `" ".join(s.split())`

  ghost predicate ValidWords(ws: seq<string>)
  {
    forall k :: 0 <= k < |ws| ==> |ws[k]| > 0 && NoSpace(ws[k])
  }

  /** `s.split()`: the maximal non-whitespace runs of s, in order. */
  ghost function Words(s: string): (ws: seq<string>)
    ensures ValidWords(ws)
    decreases |s|
  {
    var t := s[LeadingSpaces(s)..];
    if |t| == 0 then []
    else
      var n := WordLength(t);
      var w, rest := t[..n], Words(t[n..]);
      ValidWordsCons(w, rest);
      [w] + rest
  }

  /** A word in front of valid words gives valid words. */
  lemma ValidWordsCons(w: string, ws: seq<string>)
    requires |w| > 0 && NoSpace(w) && ValidWords(ws)
    ensures ValidWords([w] + ws)
  {
    forall k | 0 <= k < |ws| + 1
      ensures |([w] + ws)[k]| > 0 && NoSpace(([w] + ws)[k])
    {
      if k > 0 { assert ([w] + ws)[k] == ws[k - 1]; }
    }
  }

  /** `" ".join(ws)`. */
  ghost function JoinWords(ws: seq<string>): string
  {
    if |ws| == 0 then ""
    else if |ws| == 1 then ws[0]
    else ws[0] + " " + JoinWords(ws[1..])
  }

  // ---------------------------------------------------------------------
  // Lemmas

  /** A text has no words exactly when it is all whitespace. */
  lemma WordsEmptyIff(s: string)
    ensures Words(s) == [] <==> AllSpace(s)
  {
    var k := LeadingSpaces(s);
    if k < |s| {
      assert !IsSpace(s[k]);
    }
  }

  /** Collapsing passes a whitespace-free prefix through unchanged. */
  lemma {:induction false} CollapseWord(w: string, r: string)
    requires NoSpace(w)
    ensures CollapseSpaces(w + r) == w + CollapseSpaces(r)
    decreases |w|
  {
    if |w| == 0 {
      assert w + r == r;
    } else {
      var s := w + r;
      assert s[0] == w[0];
      assert s[1..] == w[1..] + r;
      CollapseWord(w[1..], r);
      assert w == [w[0]] + w[1..];
    }
  }

  /** Joining the words of a text puts them back with single spaces between. */
  lemma JoinCons(w: string, ws: seq<string>)
    requires |ws| > 0
    ensures JoinWords([w] + ws) == w + " " + JoinWords(ws)
  {
    assert ([w] + ws)[1..] == ws;
  }

  /** One space when s begins (or ends) with whitespace, nothing otherwise. */
  function LeadingMark(s: string): string
  {
    if |s| > 0 && IsSpace(s[0]) then " " else ""
  }

  function TrailingMark(s: string): string
  {
    if |s| > 0 && IsSpace(s[|s| - 1]) then " " else ""
  }

  /** After collapsing, a text is its words joined by single spaces, with one
      space more at each end that was whitespace. */
  lemma {:induction false} CollapseShape(s: string)
    ensures Words(s) == [] ==> CollapseSpaces(s) == (if |s| == 0 then "" else " ")
    ensures Words(s) != [] ==>
      CollapseSpaces(s) == LeadingMark(s) + JoinWords(Words(s)) + TrailingMark(s)
  {
    if |s| == 0 {
    } else if IsSpace(s[0]) {
      CollapseShapeAfterSpace(s);
    } else {
      CollapseShapeAfterWord(s);
    }
  }

  lemma {:induction false} CollapseShapeAfterSpace(s: string)
    requires |s| > 0 && IsSpace(s[0])
    ensures Words(s) == [] ==> CollapseSpaces(s) == " "
    ensures Words(s) != [] ==>
      CollapseSpaces(s) == " " + JoinWords(Words(s)) + TrailingMark(s)
    decreases |s|
  {
    SpaceRun(s);
    var t := s[LeadingSpaces(s)..];
    if |t| > 0 {
      CollapseShapeAfterWord(t);
      SpaceBefore(CollapseSpaces(s), CollapseSpaces(t), JoinWords(Words(t)), TrailingMark(s));
    }
  }

  /** A leading whitespace run collapses to one space and hides no word;
      what follows it starts with a word and ends where s ends. */
  lemma SpaceRun(s: string)
    requires |s| > 0 && IsSpace(s[0])
    ensures var t := s[LeadingSpaces(s)..];
      && |t| < |s|
      && CollapseSpaces(s) == " " + CollapseSpaces(t)
      && Words(s) == Words(t)
      && (|t| == 0 ==> Words(s) == [] && CollapseSpaces(s) == " ")
      && (|t| > 0 ==> !IsSpace(t[0]) && TrailingMark(t) == TrailingMark(s))
  {
    var k := LeadingSpaces(s);
    WordsAfterSpace(s);
    if k == |s| {
      assert s[k..] == [];
    } else {
      SuffixEnds(s, k);
    }
  }

  /** A suffix that starts at a non-whitespace character ends as s does. */
  lemma SuffixEnds(s: string, k: nat)
    requires k < |s| && !IsSpace(s[k])
    ensures !IsSpace(s[k..][0]) && TrailingMark(s[k..]) == TrailingMark(s)
  {
    assert s[k..][0] == s[k] && s[k..][|s| - k - 1] == s[|s| - 1];
  }

  /** Leading whitespace does not change the words of a text. */
  lemma WordsAfterSpace(s: string)
    ensures Words(s) == Words(s[LeadingSpaces(s)..])
  {
    var t := s[LeadingSpaces(s)..];
    assert LeadingSpaces(t) == 0 by {
      if |t| > 0 { assert t[0] == s[LeadingSpaces(s)]; }
    }
    assert t[0..] == t;
  }

  lemma {:induction false} CollapseShapeAfterWord(s: string)
    requires |s| > 0 && !IsSpace(s[0])
    ensures Words(s) != [] &&
      CollapseSpaces(s) == JoinWords(Words(s)) + TrailingMark(s)
    decreases |s|
  {
    var n := WordLength(s);
    var w, r := s[..n], s[n..];
    assert s == w + r;
    WordsAfterWord(s);
    CollapseWord(w, r);
    if |r| == 0 {
      assert s[|s| - 1] == w[n - 1];
      assert CollapseSpaces(s) == w;
    } else {
      assert r[0] == s[n] && r[|r| - 1] == s[|s| - 1];
      CollapseShapeAfterSpace(r);
      WordsEmptyIff(r);
      JoinAfterWord(w, Words(r), CollapseSpaces(r), TrailingMark(s));
    }
  }

  /** A word followed by the collapsed rest of a text: the words joined, and the
      mark of the text's end. */
  lemma JoinAfterWord(w: string, ws: seq<string>, c: string, mark: string)
    requires ws == [] ==> c == " " && mark == " "
    requires ws != [] ==> c == " " + JoinWords(ws) + mark
    ensures w + c == JoinWords([w] + ws) + mark
  {
    if ws == [] {
      assert [w] + ws == [w];
    } else {
      SeqAssoc(w, " " + JoinWords(ws), mark);
      SeqAssoc(w, " ", JoinWords(ws));
      JoinCons(w, ws);
    }
  }

  /** A space before a collapsed text that is its words and an end mark. */
  lemma SpaceBefore(c: string, ct: string, j: string, mark: string)
    requires c == " " + ct && ct == j + mark
    ensures c == " " + j + mark
  {
    SeqAssoc(" ", j, mark);
  }

  /** Concatenation is associative; stated once, for sequences of any kind. */
  lemma SeqAssoc<T>(a: seq<T>, b: seq<T>, c: seq<T>)
    ensures a + (b + c) == a + b + c
  {
  }

  /** A text that starts with a word splits into that word and the words of the rest. */
  lemma WordsAfterWord(s: string)
    requires |s| > 0 && !IsSpace(s[0])
    ensures Words(s) == [s[..WordLength(s)]] + Words(s[WordLength(s)..])
  {
    assert LeadingSpaces(s) == 0;
    assert s[0..] == s;
  }

  /** The joined words of a text are non-empty exactly when there is a word,
      and begin and end with a non-whitespace character. */
  lemma {:induction false} JoinedWordsCleaned(ws: seq<string>)
    requires ValidWords(ws)
    ensures Cleaned(JoinWords(ws))
    ensures |ws| > 0 <==> |JoinWords(ws)| > 0
  {
    if |ws| == 1 {
      assert NoSpace(ws[0]);
    } else if |ws| > 1 {
      var w, rest := ws[0], JoinWords(ws[1..]);
      JoinedWordsCleaned(ws[1..]);
      var j := w + " " + rest;
      assert JoinWords(ws) == j;
      assert NoSpace(w) && |w| > 0;
      forall i | 0 <= i < |j| && IsSpace(j[i])
        ensures j[i] == ' '
      {
        if i > |w| {
          assert j[i] == rest[i - |w| - 1];
        }
      }
      forall i | 0 <= i < |j| - 1 && IsSpace(j[i])
        ensures !IsSpace(j[i + 1])
      {
        if i == |w| {
          assert j[i + 1] == rest[0];
        } else if i > |w| {
          assert j[i] == rest[i - |w| - 1];
          assert j[i + 1] == rest[i - |w|];
        }
      }
      assert j[0] == w[0];
      assert j[|j| - 1] == rest[|rest| - 1];
    }
  }

  /** Stripping removes exactly one optional space at each end of a trimmed core. */
  lemma StripAround(lead: string, j: string, trail: string)
    requires lead == "" || lead == " "
    requires trail == "" || trail == " "
    requires |j| > 0 && Trimmed(j)
    ensures Strip(lead + j + trail) == j
  {
    var s := lead + j + trail;
    assert s[|lead|] == j[0];
    if |lead| == 1 {
      assert IsSpace(s[0]);
    }
    assert LeadingSpaces(s) == |lead|;
    assert s[|lead|..] == j + trail;
    if |trail| == 1 {
      assert (j + trail)[..|j|] == j;
      assert StripRight(j + trail) == StripRight(j);
    }
    assert StripRight(j) == j;
  }

  /** `str.strip()` on any text: the result is the text between a leading
      and a trailing whitespace run, and neither of its ends is whitespace;
      it is empty exactly when the text is all whitespace. */
  lemma StripMeaning(s: string, a: nat)
    requires a == LeadingSpaces(s)
    ensures a + |Strip(s)| <= |s| && Strip(s) == s[a .. a + |Strip(s)|]
    ensures AllSpace(s[..a]) && AllSpace(s[a + |Strip(s)|..])
    ensures Trimmed(Strip(s))
    ensures Strip(s) == "" <==> AllSpace(s)
  {
    var t := s[a..];
    StripRightMeaning(t);
    var r := StripRight(t);
    assert t[..|r|] == s[a .. a + |r|];
    assert t[|r|..] == s[a + |r|..];
    if |r| > 0 {
      assert r[0] == s[a];
    } else {
      assert a == |s| && s[..a] == s;
    }
  }

  /** Dropping trailing whitespace keeps a prefix and removes an all-whitespace suffix,
      ending the result on a non-whitespace character. */
  lemma {:induction false} StripRightMeaning(t: string)
    ensures |StripRight(t)| <= |t| && StripRight(t) == t[..|StripRight(t)|]
    ensures AllSpace(t[|StripRight(t)|..])
    ensures |StripRight(t)| > 0 ==> !IsSpace(StripRight(t)[|StripRight(t)| - 1])
    decreases |t|
  {
    if |t| > 0 && IsSpace(t[|t| - 1]) {
      var u := t[..|t| - 1];
      StripRightMeaning(u);
      var n := |StripRight(u)|;
      assert u[..n] == t[..n];
      assert t[n..] == u[n..] + [t[|t| - 1]];
    }
  }

  /** clean_text agrees with `" ".join(text.split())`. */
  lemma StripCollapseIsJoinedWords(s: string)
    ensures Strip(CollapseSpaces(s)) == JoinWords(Words(s))
  {
    CollapseShape(s);
    if Words(s) != [] {
      JoinedWordsCleaned(Words(s));
      StripAround(LeadingMark(s), JoinWords(Words(s)), TrailingMark(s));
    } else if |s| > 0 {
      assert LeadingSpaces(" ") == 1;
    }
  }

  /** Collapsing leaves a single-spaced text as it is. */
  lemma {:induction false} CollapseSingleSpaced(s: string)
    requires SingleSpaced(s)
    ensures CollapseSpaces(s) == s
    decreases |s|
  {
    if |s| > 0 {
      var t := s[1..];
      assert SingleSpaced(t) by {
        forall i | 0 <= i < |t| - 1 && IsSpace(t[i])
          ensures !IsSpace(t[i + 1])
        {
          assert t[i] == s[i + 1] && t[i + 1] == s[i + 2];
        }
      }
      CollapseSingleSpaced(t);
      if IsSpace(s[0]) {
        assert |s| > 1 ==> !IsSpace(s[1]);
        assert LeadingSpaces(s) == 1;
        assert s == " " + t;
      } else {
        assert s == [s[0]] + t;
      }
    }
  }

  /** What clean_text returns: the words of the text joined by single spaces,
      hence trimmed and single-spaced, and empty exactly when the text is
      missing, empty or all whitespace. */
  lemma CleanTextMeaning(text: Option<string>)
    ensures text.Some? ==> CleanText(text) == JoinWords(Words(text.value))
    ensures Cleaned(CleanText(text))
    ensures CleanText(text) == "" <==> text.None? || AllSpace(text.value)
  {
    if text.Some? {
      var s := text.value;
      StripCollapseIsJoinedWords(s);
      JoinedWordsCleaned(Words(s));
      WordsEmptyIff(s);
    }
  }

  /** clean_text is idempotent. */
  lemma CleanTextIdempotent(text: Option<string>)
    ensures CleanText(Some(CleanText(text))) == CleanText(text)
  {
    CleanTextMeaning(text);
    var r := CleanText(text);
    if r != "" {
      CollapseSingleSpaced(r);
      assert LeadingSpaces(r) == 0;
      assert r[0..] == r;
    }
  }
}
