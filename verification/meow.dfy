/**
 * The "meow" substitution: `re.sub(r'\b\w+\b', 'meow', text)`.
 *
 * SubstituteFrom follows the regular-expression engine: it scans the text from
 * left to right, tries the pattern at every position, and on a match emits the
 * placeholder and resumes after the match; otherwise it copies one character.
 * The specification it is proved against is a decomposition of the text into
 * maximal runs of word characters and single non-word characters (Segment).
 */
module MeowSubstitution {
  import opened Wrappers

  /** The literal replacement text. */
  const Placeholder: string := "meow"

  /** `\w`, restricted to ASCII: letters, digits and underscore. */
  predicate IsWordChar(c: char) {
    ('a' <= c <= 'z') || ('A' <= c <= 'Z') || ('0' <= c <= '9') || c == '_'
  }

  predicate AllWordChars(s: string) {
    forall k :: 0 <= k < |s| ==> IsWordChar(s[k])
  }

  /** `\b` at position i: exactly one of the neighbouring characters is a word character. */
  predicate AtBoundary(s: string, i: nat)
    requires i <= |s|
  {
    (i > 0 && IsWordChar(s[i - 1])) != (i < |s| && IsWordChar(s[i]))
  }

  /** Where greedy `\w*` started at i stops: the end of the maximal word run at i. */
  function RunEnd(s: string, i: nat): (j: nat)
    requires i <= |s|
    ensures i <= j <= |s|
    ensures forall k :: i <= k < j ==> IsWordChar(s[k])
    ensures j == |s| || !IsWordChar(s[j])
    decreases |s| - i
  {
    if i < |s| && IsWordChar(s[i]) then RunEnd(s, i + 1) else i
  }

  /** The end of the match of `\b\w+\b` tried at position i, if there is one. */
  function MatchAt(s: string, i: nat): (m: Option<nat>)
    requires i <= |s|
    ensures m.Some? <==> i < |s| && IsWordChar(s[i]) && (i == 0 || !IsWordChar(s[i - 1]))
    ensures m.Some? ==> i < m.value <= |s| && m.value == RunEnd(s, i)
  {
    var j := RunEnd(s, i);
    if AtBoundary(s, i) && i < j && AtBoundary(s, j) then Some(j) else None
  }

  /**
   * Backtracking the greedy `\w+` cannot produce another match: any end k of a
   * word run starting at i at which `\b` holds is the greedy end.
   */
  lemma GreedyEndIsOnlyEnd(s: string, i: nat, k: nat)
    requires i < k <= |s|
    requires forall p :: i <= p < k ==> IsWordChar(s[p])
    requires AtBoundary(s, k)
    ensures k == RunEnd(s, i)
  {
  }

  /** The scan of `re.sub` from position i to the end of s. */
  function SubstituteFrom(s: string, i: nat): string
    requires i <= |s|
    decreases |s| - i
  {
    if i == |s| then ""
    else match MatchAt(s, i)
      case Some(j) => Placeholder + SubstituteFrom(s, j)
      case None => [s[i]] + SubstituteFrom(s, i + 1)
  }

  /**
   * `re.sub(r'\b\w+\b', 'meow', s)`: the scan from the start of the text. Its
   * result is the text's maximal word runs each replaced by the placeholder,
   * with every non-word character kept, in order.
   */
  function Meow(s: string): (r: string)
    ensures r == Flatten(Meowed(Tokenize(s)))
    ensures NonWordChars(r) == NonWordChars(s)
  {
    var segs := Tokenize(s);
    assert s[0..] == s;
    SubstituteFromSegments(s, 0, segs);
    MeowedKeepsNonWordChars(segs);
    SubstituteFrom(s, 0)
  }

  // ---------------------------------------------------------------------------
  // Specification: the text as a sequence of maximal word runs and other characters.

  datatype Segment = Word(text: string) | Other(c: char)

  function SegmentText(seg: Segment): string {
    match seg
    case Word(w) => w
    case Other(c) => [c]
  }

  function Flatten(segs: seq<Segment>): string {
    if segs == [] then "" else SegmentText(segs[0]) + Flatten(segs[1..])
  }

  /** A word segment is a non-empty run of word characters; any other segment is one non-word character. */
  predicate SegmentOk(seg: Segment) {
    match seg
    case Word(w) => w != "" && AllWordChars(w)
    case Other(c) => !IsWordChar(c)
  }

  /** Every segment is well formed and no two word runs touch, so every word run is maximal. */
  predicate WellFormed(segs: seq<Segment>) {
    && (forall k :: 0 <= k < |segs| ==> SegmentOk(segs[k]))
    && (forall k :: 0 <= k < |segs| - 1 ==> !(segs[k].Word? && segs[k + 1].Word?))
  }

  /** Each word run replaced by the placeholder, every other segment kept. */
  function Meowed(segs: seq<Segment>): seq<Segment> {
    if segs == [] then []
    else [if segs[0].Word? then Word(Placeholder) else segs[0]] + Meowed(segs[1..])
  }

  /** Words whose every maximal run is the placeholder. */
  predicate OnlyPlaceholders(segs: seq<Segment>) {
    forall k :: 0 <= k < |segs| && segs[k].Word? ==> segs[k].text == Placeholder
  }

  /** The decomposition of a text into maximal word runs and single other characters. */
  function Tokenize(s: string): (segs: seq<Segment>)
    ensures WellFormed(segs) && Flatten(segs) == s
    ensures segs == [] <==> s == []
    ensures s != [] ==> (segs[0].Word? <==> IsWordChar(s[0]))
    decreases |s|
  {
    if s == [] then []
    else if IsWordChar(s[0]) then
      var n := RunEnd(s, 0);
      var rest := Tokenize(s[n..]);
      assert s[..n] + s[n..] == s;
      assert ([Word(s[..n])] + rest)[1..] == rest;
      [Word(s[..n])] + rest
    else
      var rest := Tokenize(s[1..]);
      assert [s[0]] + s[1..] == s;
      assert ([Other(s[0])] + rest)[1..] == rest;
      [Other(s[0])] + rest
  }

  lemma FlattenCons(seg: Segment, rest: seq<Segment>)
    ensures Flatten([seg] + rest) == SegmentText(seg) + Flatten(rest)
  {
    assert ([seg] + rest)[1..] == rest;
  }

  lemma WellFormedTail(segs: seq<Segment>)
    requires WellFormed(segs) && segs != []
    ensures WellFormed(segs[1..])
  {
    forall k | 0 <= k < |segs| - 2
      ensures !(segs[1..][k].Word? && segs[1..][k + 1].Word?)
    {
      assert segs[1..][k] == segs[k + 1] && segs[1..][k + 1] == segs[k + 2];
    }
  }

  /** Where the first segment sits in the text when the segments spell s from position i. */
  lemma FirstSegmentAt(s: string, i: nat, segs: seq<Segment>)
    requires i <= |s| && segs != [] && s[i..] == Flatten(segs)
    ensures i + |SegmentText(segs[0])| <= |s|
    ensures forall p :: 0 <= p < |SegmentText(segs[0])| ==> s[i + p] == SegmentText(segs[0])[p]
    ensures s[i + |SegmentText(segs[0])|..] == Flatten(segs[1..])
  {
    var t, f := SegmentText(segs[0]), Flatten(segs[1..]);
    assert Flatten(segs) == t + f;
    var u := s[i..];
    assert u == t + f;
    forall p | 0 <= p < |t| ensures s[i + p] == t[p] {
      calc {
        s[i + p];
        u[p];
        (t + f)[p];
        t[p];
      }
    }
    calc {
      s[i + |t|..];
      u[|t|..];
      (t + f)[|t|..];
      f;
    }
  }

  /** A word segment at a run start is matched whole by the pattern. */
  lemma WordSegmentMatches(s: string, i: nat, segs: seq<Segment>)
    requires i <= |s| && WellFormed(segs) && s[i..] == Flatten(segs)
    requires segs != [] && segs[0].Word? && (i > 0 ==> !IsWordChar(s[i - 1]))
    ensures MatchAt(s, i) == Some(i + |segs[0].text|)
  {
    var w := segs[0].text;
    var j := i + |w|;
    FirstSegmentAt(s, i, segs);
    assert SegmentOk(segs[0]);
    assert forall p :: i <= p < j ==> IsWordChar(s[p]) by {
      forall p | i <= p < j ensures IsWordChar(s[p]) {
        assert s[i + (p - i)] == w[p - i];
      }
    }
    var rest := segs[1..];
    if rest != [] {
      assert rest[0] == segs[1] && SegmentOk(segs[1]) && rest[0].Other?;
      FlattenCons(rest[0], rest[1..]);
      assert rest == [rest[0]] + rest[1..];
      assert s[j] == s[j..][0] == rest[0].c;
    }
    assert IsWordChar(s[i]);
    assert RunEnd(s, i) == j;
  }

  /** One step of the scan: a match emits the placeholder, anything else copies one character. */
  lemma SubstituteStep(s: string, i: nat)
    requires i < |s|
    ensures MatchAt(s, i).Some? ==> SubstituteFrom(s, i) == Placeholder + SubstituteFrom(s, MatchAt(s, i).value)
    ensures MatchAt(s, i).None? ==> SubstituteFrom(s, i) == [s[i]] + SubstituteFrom(s, i + 1)
  {
  }

  /** Replacing the first segment and then the rest. */
  lemma MeowedCons(segs: seq<Segment>)
    requires segs != []
    ensures Flatten(Meowed(segs)) ==
      (if segs[0].Word? then Placeholder else SegmentText(segs[0])) + Flatten(Meowed(segs[1..]))
  {
    var m := if segs[0].Word? then Word(Placeholder) else segs[0];
    assert Meowed(segs) == [m] + Meowed(segs[1..]);
    FlattenCons(m, Meowed(segs[1..]));
  }

  /**
   * The scan started at the beginning of a segment (never in the middle of a
   * word run) produces the segments with every word run replaced.
   */
  lemma {:induction false} SubstituteFromSegments(s: string, i: nat, segs: seq<Segment>)
    requires i <= |s| && WellFormed(segs) && s[i..] == Flatten(segs)
    requires segs != [] && segs[0].Word? && i > 0 ==> !IsWordChar(s[i - 1])
    ensures SubstituteFrom(s, i) == Flatten(Meowed(segs))
    decreases |segs|
  {
    if segs == [] {
      assert |s[i..]| == 0;
    } else {
      var rest := segs[1..];
      WellFormedTail(segs);
      FirstSegmentAt(s, i, segs);
      MeowedCons(segs);
      SubstituteStep(s, i);
      if segs[0].Word? {
        WordSegmentMatches(s, i, segs);
        assert rest != [] ==> rest[0] == segs[1] && !rest[0].Word?;
        SubstituteFromSegments(s, i + |segs[0].text|, rest);
      } else {
        assert SegmentOk(segs[0]);
        assert s[i] == segs[0].c;
        SubstituteFromSegments(s, i + 1, rest);
      }
    }
  }

  /** For every decomposition into maximal word runs, Meow replaces each run by exactly the placeholder and keeps the rest. */
  lemma MeowReplacesEveryRun(s: string, segs: seq<Segment>)
    requires WellFormed(segs) && Flatten(segs) == s
    ensures Meow(s) == Flatten(Meowed(segs))
  {
    assert s[0..] == s;
    SubstituteFromSegments(s, 0, segs);
  }

  lemma {:induction false} MeowedWellFormed(segs: seq<Segment>)
    requires WellFormed(segs)
    ensures |Meowed(segs)| == |segs|
    ensures forall k :: 0 <= k < |segs| ==> Meowed(segs)[k].Word? == segs[k].Word?
    ensures WellFormed(Meowed(segs)) && OnlyPlaceholders(Meowed(segs))
  {
    if segs != [] {
      WellFormedTail(segs);
      MeowedWellFormed(segs[1..]);
      assert SegmentOk(segs[0]);
      var m := Meowed(segs);
      assert m == [if segs[0].Word? then Word(Placeholder) else segs[0]] + Meowed(segs[1..]);
      forall k | 0 <= k < |segs| ensures m[k].Word? == segs[k].Word? {
        if k > 0 { assert m[k] == Meowed(segs[1..])[k - 1]; }
      }
      forall k | 0 <= k < |m| ensures SegmentOk(m[k]) {
        if k > 0 { assert m[k] == Meowed(segs[1..])[k - 1]; }
      }
    }
  }

  lemma {:induction false} MeowedFixesPlaceholders(segs: seq<Segment>)
    requires OnlyPlaceholders(segs)
    ensures Meowed(segs) == segs
  {
    if segs != [] {
      assert OnlyPlaceholders(segs[1..]) by {
        forall k | 0 <= k < |segs| - 1 && segs[1..][k].Word?
          ensures segs[1..][k].text == Placeholder
        {
          assert segs[1..][k] == segs[k + 1];
        }
      }
      MeowedFixesPlaceholders(segs[1..]);
      assert segs[0].Word? ==> segs[0] == Word(Placeholder);
    }
  }

  /** The output's own maximal word runs are all the placeholder. */
  lemma MeowOutputRuns(s: string)
    ensures OnlyPlaceholders(Tokenize(Meow(s)))
  {
    var segs := Tokenize(s);
    MeowReplacesEveryRun(s, segs);
    MeowedWellFormed(segs);
    var out := Meowed(segs);
    TokenizeUnique(Meow(s), out);
  }

  /** The decomposition into maximal runs is unique. */
  lemma {:induction false} TokenizeUnique(s: string, segs: seq<Segment>)
    requires WellFormed(segs) && Flatten(segs) == s
    ensures segs == Tokenize(s)
    decreases |s|
  {
    if segs != [] {
      var rest := segs[1..];
      WellFormedTail(segs);
      FlattenCons(segs[0], rest);
      assert segs == [segs[0]] + rest;
      assert SegmentOk(segs[0]);
      var t := SegmentText(segs[0]);
      assert s == t + Flatten(rest);
      assert s[..|t|] == t && s[|t|..] == Flatten(rest);
      match segs[0]
      case Other(c) =>
        TokenizeUnique(s[1..], rest);
      case Word(w) =>
        assert forall p :: 0 <= p < |w| ==> IsWordChar(s[p]) by {
          forall p | 0 <= p < |w| ensures IsWordChar(s[p]) { assert s[p] == w[p]; }
        }
        if rest != [] {
          assert rest[0] == segs[1];
          assert SegmentOk(segs[1]);
          FlattenCons(rest[0], rest[1..]);
          assert rest == [rest[0]] + rest[1..];
          assert s[|w|] == Flatten(rest)[0] == rest[0].c;
        }
        assert RunEnd(s, 0) == |w|;
        TokenizeUnique(s[|w|..], rest);
    } else {
      assert s == [];
    }
  }

  /** Applying the substitution to its own output changes nothing. */
  lemma MeowIdempotent(s: string)
    ensures Meow(Meow(s)) == Meow(s)
  {
    var segs := Tokenize(s);
    MeowReplacesEveryRun(s, segs);
    MeowedWellFormed(segs);
    var out := Meowed(segs);
    MeowReplacesEveryRun(Meow(s), out);
    MeowedFixesPlaceholders(out);
  }

  // ---------------------------------------------------------------------------
  // Non-word characters survive, in their original order.

  /** The non-word characters of s, in order. */
  function NonWordChars(s: string): string {
    if s == [] then ""
    else (if IsWordChar(s[0]) then "" else [s[0]]) + NonWordChars(s[1..])
  }

  lemma {:induction false} NonWordCharsAppend(a: string, b: string)
    ensures NonWordChars(a + b) == NonWordChars(a) + NonWordChars(b)
    decreases |a|
  {
    if a != [] {
      assert (a + b)[0] == a[0] && (a + b)[1..] == a[1..] + b;
      NonWordCharsAppend(a[1..], b);
    } else {
      assert a + b == b;
    }
  }

  lemma {:induction false} NonWordCharsOfWord(w: string)
    requires AllWordChars(w)
    ensures NonWordChars(w) == ""
    decreases |w|
  {
    if w != [] {
      NonWordCharsOfWord(w[1..]);
    }
  }

  lemma {:induction false} MeowedKeepsNonWordChars(segs: seq<Segment>)
    requires WellFormed(segs)
    ensures NonWordChars(Flatten(Meowed(segs))) == NonWordChars(Flatten(segs))
  {
    if segs != [] {
      var rest := segs[1..];
      WellFormedTail(segs);
      MeowedKeepsNonWordChars(rest);
      assert SegmentOk(segs[0]);
      var m := if segs[0].Word? then Word(Placeholder) else segs[0];
      assert Meowed(segs) == [m] + Meowed(rest);
      FlattenCons(m, Meowed(rest));
      NonWordCharsAppend(SegmentText(m), Flatten(Meowed(rest)));
      NonWordCharsAppend(SegmentText(segs[0]), Flatten(rest));
      if segs[0].Word? {
        NonWordCharsOfWord(segs[0].text);
        NonWordCharsOfWord(Placeholder);
      }
    }
  }

  /** A text without word characters is returned unchanged. */
  lemma MeowWithoutWords(s: string)
    requires forall k :: 0 <= k < |s| ==> !IsWordChar(s[k])
    ensures Meow(s) == s
  {
    var segs := Tokenize(s);
    if k :| 0 <= k < |segs| && segs[k].Word? {
      WordSegmentHasWordChar(segs, k);
      assert false;
    }
    MeowReplacesEveryRun(s, segs);
    MeowedFixesPlaceholders(segs);
  }

  /** A word segment contributes one of its word characters to the text. */
  lemma {:induction false} WordSegmentHasWordChar(segs: seq<Segment>, k: nat)
    requires WellFormed(segs) && k < |segs| && segs[k].Word?
    ensures exists p :: 0 <= p < |Flatten(segs)| && IsWordChar(Flatten(segs)[p])
  {
    FlattenCons(segs[0], segs[1..]);
    assert segs == [segs[0]] + segs[1..];
    if k == 0 {
      assert SegmentOk(segs[0]);
      assert Flatten(segs)[0] == segs[0].text[0];
    } else {
      WellFormedTail(segs);
      assert segs[1..][k - 1] == segs[k];
      WordSegmentHasWordChar(segs[1..], k - 1);
      var t := SegmentText(segs[0]);
      var p :| 0 <= p < |Flatten(segs[1..])| && IsWordChar(Flatten(segs[1..])[p]);
      assert Flatten(segs)[|t| + p] == Flatten(segs[1..])[p];
    }
  }

  /** The maximal word runs of "Hi there!". */
  lemma HiThereSegments()
    ensures Tokenize("Hi there!") == [Word("Hi"), Other(' '), Word("there"), Other('!')]
  {
    var segs := [Word("Hi"), Other(' '), Word("there"), Other('!')];
    assert Flatten(segs) == "Hi there!" by {
      FlattenCons(segs[0], segs[1..]);
      FlattenCons(segs[1], segs[2..]);
      FlattenCons(segs[2], segs[3..]);
      FlattenCons(segs[3], segs[4..]);
    }
    TokenizeUnique("Hi there!", segs);
  }

  /** The maximal word runs of "Hi there!", each replaced. */
  lemma HiThereMeowed()
    ensures Flatten(Meowed([Word("Hi"), Other(' '), Word("there"), Other('!')])) == "meow meow!"
  {
    var m := [Word("meow"), Other(' '), Word("meow"), Other('!')];
    assert Meowed([Word("Hi"), Other(' '), Word("there"), Other('!')]) == m;
    FlattenCons(m[0], m[1..]);
    FlattenCons(m[1], m[2..]);
    FlattenCons(m[2], m[3..]);
    FlattenCons(m[3], m[4..]);
  }

  /** "Hi there!" becomes "meow meow!". */
  lemma MeowExample()
    ensures Meow("Hi there!") == "meow meow!"
  {
    HiThereSegments();
    HiThereMeowed();
  }
}
