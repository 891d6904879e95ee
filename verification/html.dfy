/** `cleanHtmlContent` of the work editor: the test that decides whether a
    text block still holds anything. It removes empty paragraphs
    (`/<p>\s*<\/p>/g`), collapses every whitespace run into one space
    (`/\s+/g`) and trims. */
module Html {
  import opened Core
  import opened Text

  /** Length of the whitespace run at the start of `s` (what a greedy `\s*`
      or `\s+` consumes). */
  function SpaceRun(s: string): (n: nat)
    ensures n <= |s|
    ensures AllSpace(s[..n])
    ensures n == |s| || !IsSpace(s[n])
  {
    if |s| > 0 && IsSpace(s[0]) then
      var n := 1 + SpaceRun(s[1..]);
      assert s[..n] == [s[0]] + s[1..][..n - 1];
      n
    else 0
  }

  /** The whitespace run is the only all-whitespace prefix that is followed
      by a non-whitespace character or by the end. */
  lemma {:induction false} SpaceRunUnique(s: string, k: nat)
    requires k <= |s| && AllSpace(s[..k]) && (k == |s| || !IsSpace(s[k]))
    ensures SpaceRun(s) == k
  {
    if k > 0 {
      assert s[..k][0] == s[0];
      assert s[1..][..k - 1] == s[1..k];
      assert k - 1 == |s[1..]| || s[1..][k - 1] == s[k];
      SpaceRunUnique(s[1..], k - 1);
    }
  }

  const OpenP: string := "<p>"
  const CloseP: string := "</p>"

  /** Length of the match of `<p>\s*<\/p>` anchored at the start of `s`, if
      any. Greedy `\s*` loses nothing by not backtracking, because `<`
      is not whitespace. */
  function EmptyParagraphAt(s: string): (m: Option<nat>)
    ensures m.Some? ==> 7 <= m.value <= |s|
                        && s[..3] == OpenP && AllSpace(s[3..m.value - 4])
                        && s[m.value - 4..m.value] == CloseP
  {
    if StartsWith(s, OpenP) then
      var n := SpaceRun(s[3..]);
      if StartsWith(s[3 + n..], CloseP) then
        assert s[3..][..n] == s[3..3 + n];
        assert s[3 + n..][..4] == s[3 + n..3 + n + 4];
        Some(3 + n + 4)
      else None
    else None
  }

  /** Conversely, every prefix `<p>`, whitespace, `</p>` is reported, with
      its full length. */
  lemma EmptyParagraphFound(w: string, t: string)
    requires AllSpace(w)
    ensures EmptyParagraphAt(OpenP + w + CloseP + t) == Some(7 + |w|)
  {
    var s := OpenP + w + CloseP + t;
    assert s[..3] == OpenP;
    var u := s[3..];
    assert u == w + CloseP + t;
    assert u[..|w|] == w;
    assert u[|w|] == '<' && !IsSpace('<');
    SpaceRunUnique(u, |w|);
    assert s[3 + |w|..][..4] == CloseP;
  }

  /** `html.replace(/<p>\s*<\/p>/g, '')`: matches are found left to right
      and scanning resumes after each one. */
  function StripEmptyParagraphs(s: string): (r: string)
    ensures |r| <= |s|
    decreases |s|
  {
    if |s| == 0 then []
    else match EmptyParagraphAt(s)
      case Some(m) => StripEmptyParagraphs(s[m..])
      case None => [s[0]] + StripEmptyParagraphs(s[1..])
  }

  /** An empty paragraph at the front is removed whole, and the scan goes on
      behind it. */
  lemma StripDropsLeadingEmptyParagraph(w: string, t: string)
    requires AllSpace(w)
    ensures StripEmptyParagraphs(OpenP + w + CloseP + t) == StripEmptyParagraphs(t)
  {
    var s := OpenP + w + CloseP + t;
    EmptyParagraphFound(w, t);
    assert s[7 + |w|..] == t;
  }

  /** A character where no match starts is kept, and the scan goes on
      right behind it. */
  lemma StripKeepsUnmatched(c: char, t: string)
    requires EmptyParagraphAt([c] + t).None?
    ensures StripEmptyParagraphs([c] + t) == [c] + StripEmptyParagraphs(t)
  {
    assert ([c] + t)[0] == c && ([c] + t)[1..] == t;
  }

  /** Text without a `<` in front of the rest is kept as it is, and every
      match in the rest is still removed: the replacement is global, not
      only at the start. */
  lemma {:induction false} StripAfterPlainText(x: string, t: string)
    requires '<' !in x
    ensures StripEmptyParagraphs(x + t) == x + StripEmptyParagraphs(t)
    decreases |x|
  {
    if |x| == 0 {
      assert x + t == t;
    } else {
      var c := x[0];
      var u := x[1..] + t;
      assert x + t == [c] + u;
      NoMatchAtPlainChar(c, u);
      StripKeepsUnmatched(c, u);
      NoMarkerInTail(x);
      StripAfterPlainText(x[1..], t);
      Regroup([c], x[1..], StripEmptyParagraphs(t));
      assert [c] + x[1..] == x;
    }
  }

  /** No match starts at a character other than `<`. */
  lemma NoMatchAtPlainChar(c: char, u: string)
    requires c != '<'
    ensures EmptyParagraphAt([c] + u).None?
  {
    var s := [c] + u;
    if |s| >= 3 {
      assert s[..3][0] == c;
    }
  }

  lemma NoMarkerInTail(x: string)
    requires |x| > 0 && '<' !in x
    ensures x[0] != '<' && '<' !in x[1..]
  {
    assert x[0] in x;
    assert forall y :: y in x[1..] ==> y in x;
  }

  /** A newline in front of an empty paragraph is all that is left of the
      two. */
  lemma EmptyParagraphAfterNewline()
    ensures StripEmptyParagraphs("\n" + OpenP + CloseP) == "\n"
  {
    StripAfterPlainText("\n", OpenP + CloseP);
    StripDropsLeadingEmptyParagraph([], []);
    assert OpenP + [] + CloseP + [] == OpenP + CloseP;
  }

  /** Text in which the pattern matches nowhere comes out unchanged. */
  lemma {:induction false} StripWithoutMatchKeeps(s: string)
    requires forall i :: 0 <= i < |s| ==> EmptyParagraphAt(s[i..]).None?
    ensures StripEmptyParagraphs(s) == s
  {
    if |s| > 0 {
      assert EmptyParagraphAt(s[0..]).None? && s[0..] == s;
      forall i | 0 <= i < |s[1..]|
        ensures EmptyParagraphAt(s[1..][i..]).None?
      {
        assert s[1..][i..] == s[i + 1..];
      }
      StripWithoutMatchKeeps(s[1..]);
      assert [s[0]] + s[1..] == s;
    }
  }

  /** In particular text without a `<` comes out unchanged. */
  lemma StripWithoutMarkerKeeps(s: string)
    requires '<' !in s
    ensures StripEmptyParagraphs(s) == s
  {
    forall i | 0 <= i < |s|
      ensures EmptyParagraphAt(s[i..]).None?
    {
      assert s[i] in s;
      assert !StartsWith(s[i..], OpenP) by {
        assert s[i..][0] == s[i] != OpenP[0];
      }
    }
    StripWithoutMatchKeeps(s);
  }

  /** Whitespace appears only as single plain spaces. */
  predicate Collapsed(s: string)
  {
    && (forall k :: 0 <= k < |s| && IsSpace(s[k]) ==> s[k] == ' ')
    && (forall k :: 0 <= k < |s| - 1 ==> !IsSpace(s[k]) || !IsSpace(s[k + 1]))
  }

  /** `s.replace(/\s+/g, ' ')`. */
  function CollapseSpace(s: string): (r: string)
    ensures Collapsed(r)
    ensures AllSpace(r) <==> AllSpace(s)
    ensures |s| > 0 ==> |r| > 0 && (IsSpace(r[0]) <==> IsSpace(s[0]))
    decreases |s|
  {
    if |s| == 0 then []
    else if IsSpace(s[0]) then
      var n := SpaceRun(s);
      var rest := CollapseSpace(s[n..]);
      assert s == s[..n] + s[n..];
      assert AllSpace(s) <==> AllSpace(s[n..]);
      ConsCollapsed(' ', rest);
      [' '] + rest
    else
      var rest := CollapseSpace(s[1..]);
      ConsCollapsed(s[0], rest);
      [s[0]] + rest
  }

  /** A non-empty whitespace run on its own becomes one space. */
  lemma CollapseBlank(w: string)
    requires |w| > 0 && AllSpace(w)
    ensures CollapseSpace(w) == " "
  {
    SpaceRunUnique(w, |w|);
    assert w[|w|..] == [];
  }

  /** One step of `CollapseSpace` on a text that starts with a
      non-whitespace character: it is kept. */
  lemma CollapseWordStep(s: string)
    requires |s| > 0 && !IsSpace(s[0])
    ensures CollapseSpace(s) == [s[0]] + CollapseSpace(s[1..])
  {
  }

  /** One step of `CollapseSpace` on a text that starts with whitespace:
      the whole run becomes one space. */
  lemma CollapseRunStep(s: string)
    requires |s| > 0 && IsSpace(s[0])
    ensures CollapseSpace(s) == " " + CollapseSpace(s[SpaceRun(s)..])
  {
  }

  /** Concatenation regroups freely; kept apart so that proofs about
      collapsed texts need not reprove it. */
  lemma Regroup(a: string, b: string, c: string)
    ensures a + (b + c) == (a + b) + c
  {
  }

  /** A whitespace run never crosses into a part that does not start with
      whitespace. */
  lemma SpaceRunSeam(x: string, t: string)
    requires |t| == 0 || !IsSpace(t[0])
    ensures SpaceRun(x + t) == SpaceRun(x)
  {
    var s := x + t;
    var n := SpaceRun(x);
    assert s[..n] == x[..n];
    assert n == |s| || !IsSpace(s[n]) by {
      if n < |x| {
        assert s[n] == x[n];
      } else if n < |s| {
        assert s[n] == t[0];
      }
    }
    SpaceRunUnique(s, n);
  }

  /** Collapsing distributes over a concatenation whose second part does
      not start with whitespace: no run crosses the seam. */
  lemma {:induction false} CollapseConcat(x: string, t: string)
    requires |t| == 0 || !IsSpace(t[0])
    ensures CollapseSpace(x + t) == CollapseSpace(x) + CollapseSpace(t)
    decreases |x|, 1
  {
    if |x| == 0 {
      assert x + t == t;
    } else if !IsSpace(x[0]) {
      CollapseConcatAfterWord(x, t);
    } else {
      CollapseConcatAfterRun(x, t);
    }
  }

  /** The case of `CollapseConcat` where `x` starts with a non-whitespace
      character. */
  lemma {:induction false} CollapseConcatAfterWord(x: string, t: string)
    requires |t| == 0 || !IsSpace(t[0])
    requires |x| > 0 && !IsSpace(x[0])
    ensures CollapseSpace(x + t) == CollapseSpace(x) + CollapseSpace(t)
    decreases |x|, 0
  {
    var s := x + t;
    assert s[0] == x[0] && s[1..] == x[1..] + t;
    CollapseWordStep(s);
    CollapseWordStep(x);
    CollapseConcat(x[1..], t);
    Regroup([x[0]], CollapseSpace(x[1..]), CollapseSpace(t));
  }

  /** The case of `CollapseConcat` where `x` starts with whitespace: the
      run of `x` is the run of the whole text. */
  lemma {:induction false} CollapseConcatAfterRun(x: string, t: string)
    requires |t| == 0 || !IsSpace(t[0])
    requires |x| > 0 && IsSpace(x[0])
    ensures CollapseSpace(x + t) == CollapseSpace(x) + CollapseSpace(t)
    decreases |x|, 0
  {
    var s := x + t;
    var n := SpaceRun(x);
    SpaceRunSeam(x, t);
    assert s[0] == x[0] && s[n..] == x[n..] + t;
    CollapseRunStep(s);
    CollapseRunStep(x);
    CollapseConcat(x[n..], t);
    Regroup(" ", CollapseSpace(x[n..]), CollapseSpace(t));
  }

  /** Collapsing works piece by piece between non-whitespace characters:
      each of them stays where it is and splits the text in two. With
      `CollapseBlank` and the empty text this fixes the result on every
      input. */
  lemma CollapseSplitsAtWord(x: string, c: char, y: string)
    requires !IsSpace(c)
    ensures CollapseSpace(x + [c] + y) == CollapseSpace(x) + [c] + CollapseSpace(y)
  {
    var t := [c] + y;
    assert x + [c] + y == x + t;
    CollapseConcat(x, t);
    assert t[0] == c && t[1..] == y;
    CollapseWordStep(t);
  }

  /** Collapsing keeps the non-whitespace characters, in order. */
  lemma {:induction false} CollapseKeepsWords(s: string)
    ensures DropSpace(CollapseSpace(s)) == DropSpace(s)
    decreases |s|
  {
    if |s| > 0 {
      if IsSpace(s[0]) {
        var n := SpaceRun(s);
        CollapseKeepsWords(s[n..]);
        assert s == s[..n] + s[n..];
        DropSpaceConcat(s[..n], s[n..]);
        DropSpaceConcat(" ", CollapseSpace(s[n..]));
        assert DropSpace(" ") == [];
      } else {
        CollapseKeepsWords(s[1..]);
        DropSpaceConcat([s[0]], CollapseSpace(s[1..]));
        assert DropSpace([s[0]]) == [s[0]];
      }
    }
  }

  /** Putting a character in front of a collapsed string keeps it collapsed
      when the character is not whitespace, or is a single space in front of
      a non-space. */
  lemma ConsCollapsed(c: char, rest: string)
    requires Collapsed(rest)
    requires IsSpace(c) ==> c == ' ' && (|rest| == 0 || !IsSpace(rest[0]))
    ensures Collapsed([c] + rest)
    ensures AllSpace([c] + rest) <==> IsSpace(c) && AllSpace(rest)
  {
    var r := [c] + rest;
    assert r[0] == c;
    assert forall k :: 0 <= k < |rest| ==> r[k + 1] == rest[k];
  }

  /** `cleanHtmlContent`. */
  function CleanHtmlContent(html: string): (clean: string)
  {
    Trim(CollapseSpace(StripEmptyParagraphs(html)))
  }

  /** A slice of a collapsed string is collapsed. */
  lemma CollapsedSlice(c: string, i: nat, j: nat)
    requires i <= j <= |c|
    requires Collapsed(c)
    ensures Collapsed(c[i..j])
  {
    var r := c[i..j];
    forall k | 0 <= k < |r|
      ensures IsSpace(r[k]) ==> r[k] == ' '
    {
      assert r[k] == c[i + k];
    }
    forall k | 0 <= k < |r| - 1
      ensures !IsSpace(r[k]) || !IsSpace(r[k + 1])
    {
      assert r[k] == c[i + k] && r[k + 1] == c[i + k + 1];
    }
  }

  /** Whatever goes in, what comes out has no surrounding whitespace and no
      whitespace but single spaces. */
  lemma CleanIsNormalised(html: string)
    ensures var r := CleanHtmlContent(html);
            && Collapsed(r)
            && (r == [] || (!IsSpace(r[0]) && !IsSpace(r[|r| - 1])))
  {
    var c := CollapseSpace(StripEmptyParagraphs(html));
    TrimIsInnerSlice(c);
    var i, j :| 0 <= i <= j <= |c| && Trim(c) == c[i..j];
    CollapsedSlice(c, i, j);
  }

  /** A block counts as empty exactly when nothing but whitespace survives
      the removal of empty paragraphs. */
  lemma CleanEmptyIff(html: string)
    ensures CleanHtmlContent(html) == [] <==> AllSpace(StripEmptyParagraphs(html))
  {
    TrimEmptyIffAllSpace(CollapseSpace(StripEmptyParagraphs(html)));
  }

  lemma EmptyMarkerMatches()
    ensures EmptyParagraphAt("<p></p>") == Some(7)
  {
    var s := "<p></p>";
    assert s[..3] == OpenP;
    assert s[3..] == CloseP;
    assert !IsSpace('<');
    assert SpaceRun(CloseP) == 0;
    assert s[3..][..0] == [];
  }

  /** The content of a freshly created text block cleans to nothing. */
  lemma FreshParagraphIsEmpty()
    ensures CleanHtmlContent("<p></p>") == []
  {
    EmptyMarkerMatches();
    assert "<p></p>"[7..] == [];
    assert StripEmptyParagraphs("<p></p>") == [];
  }

  /** Text outside the markers survives: a paragraph whose text starts with
      a character that is neither whitespace nor `<` does not clean to
      nothing. */
  lemma WordIsNotEmpty(w: string)
    requires |w| > 0 && !IsSpace(w[0]) && w[0] != '<'
    ensures CleanHtmlContent(OpenP + w + CloseP) != []
  {
    var s := OpenP + w + CloseP;
    var u := s[3..];
    assert s[..3] == OpenP;
    assert u[0] == w[0];
    assert SpaceRun(u) == 0;
    assert !StartsWith(u, CloseP) by {
      assert |u| < 4 || u[..4][0] != CloseP[0];
    }
    assert EmptyParagraphAt(s) == None;
    assert StripEmptyParagraphs(s)[0] == '<';
    CleanEmptyIff(s);
  }
}
