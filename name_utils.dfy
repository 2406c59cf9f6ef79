/**
  * The name utilities: normalising one typed or imported name, splitting raw
  * text into names, the case-insensitive first-seen-wins merge that keeps the
  * name lists free of duplicates, and the Fisher-Yates shuffle used before a
  * draw and before forming teams.
  */
module NameUtils {
  import opened Text
  import opened Rand

  // ---------------------------------------------------------------------------
  // normalizeName
  // ---------------------------------------------------------------------------

  /** Every whitespace character is a plain space and no two whitespace characters are adjacent. */
  predicate SingleSpaced(s: string) {
    && (forall i | 0 <= i < |s| :: IsSpace(s[i]) ==> s[i] == ' ')
    && (forall i | 0 <= i < |s| - 1 :: !(IsSpace(s[i]) && IsSpace(s[i + 1])))
  }

  /** Single-spaced, with no whitespace at either end. */
  predicate Clean(s: string) {
    SingleSpaced(s) && (s == [] || (!IsSpace(s[0]) && !IsSpace(s[|s| - 1])))
  }

  predicate NoSpaceIn(w: string) {
    forall i | 0 <= i < |w| :: !IsSpace(w[i])
  }

  /** First character upper case, every other character lower case. */
  predicate TitleCased(w: string) {
    w == [] || (w[0] == ToUpper(w[0]) && forall i | 1 <= i < |w| :: w[i] == ToLower(w[i]))
  }

  /** What `normalizeName` produces: clean spacing and every word title-cased. */
  predicate Normalized(s: string) {
    Clean(s) && forall w | w in Split(s, ' ') :: TitleCased(w)
  }

  /** `.replace(/\s+/g, ' ')`: every run of whitespace becomes one space. */
  function Collapse(s: string): (r: string)
    ensures r == [] <==> s == []
    decreases |s|
  {
    if s == [] then []
    else if IsSpace(s[0]) then
      var t := TrimStart(s);
      [' '] + Collapse(t)
    else
      [s[0]] + Collapse(s[1..])
  }

  /** `Collapse` leaves a single-spaced string that starts and ends like its input. */
  lemma CollapseFacts(s: string)
    ensures var r := Collapse(s);
      && SingleSpaced(r)
      && (r != [] ==> (IsSpace(r[0]) <==> IsSpace(s[0])))
      && (r != [] ==> (IsSpace(r[|r| - 1]) <==> IsSpace(s[|s| - 1])))
  {
    CollapseSpacing(s);
    CollapseLast(s);
  }

  /** The head of a collapsed non-empty string: one space for a whitespace run, else the first character. */
  lemma CollapseHead(s: string)
    requires s != []
    ensures var t := if IsSpace(s[0]) then TrimStart(s) else s[1..];
      && Collapse(s) == [if IsSpace(s[0]) then ' ' else s[0]] + Collapse(t)
      && |t| < |s|
      && (t == [] || !IsSpace(s[0]) || !IsSpace(t[0]))
  {
  }

  lemma {:induction false} CollapseLast(s: string)
    ensures var r := Collapse(s); r != [] ==> (IsSpace(r[|r| - 1]) <==> IsSpace(s[|s| - 1]))
    decreases |s|
  {
    if s != [] {
      if IsSpace(s[0]) {
        var t := TrimStart(s);
        var rt := Collapse(t);
        assert Collapse(s) == [' '] + rt;
        CollapseLast(t);
        TrimStartLast(s);
        LastOfCons(' ', rt);
        if rt == [] {
          assert t == [];
        } else {
          assert t[|t| - 1] == s[|s| - 1];
        }
      } else {
        var t := s[1..];
        var rt := Collapse(t);
        assert Collapse(s) == [s[0]] + rt;
        CollapseLast(t);
        LastOfCons(s[0], rt);
        if rt == [] {
          assert |s| == 1;
        } else {
          assert t[|t| - 1] == s[|s| - 1];
        }
      }
    }
  }

  lemma LastOfCons(c: char, rt: string)
    ensures ([c] + rt)[|rt|] == if rt == [] then c else rt[|rt| - 1]
  {
  }

  /** Trimming the start of a string that starts with whitespace leaves its last character, or nothing if it was all whitespace. */
  lemma TrimStartLast(s: string)
    requires s != [] && IsSpace(s[0])
    ensures var t := TrimStart(s);
      && (t == [] ==> IsSpace(s[|s| - 1]))
      && (t != [] ==> t[|t| - 1] == s[|s| - 1])
  {
  }

  /** One character put in front of a single-spaced string keeps it single-spaced, unless it makes two spaces meet. */
  lemma ConsSingleSpaced(c: char, rt: string)
    requires SingleSpaced(rt)
    requires IsSpace(c) ==> c == ' ' && (rt == [] || !IsSpace(rt[0]))
    ensures SingleSpaced([c] + rt)
  {
    var r := [c] + rt;
    forall i | 0 <= i < |r| - 1 ensures !(IsSpace(r[i]) && IsSpace(r[i + 1])) {
      if i > 0 { assert r[i] == rt[i - 1] && r[i + 1] == rt[i]; }
    }
    forall i | 0 <= i < |r| ensures IsSpace(r[i]) ==> r[i] == ' ' {
      if i > 0 { assert r[i] == rt[i - 1]; }
    }
  }

  lemma {:induction false} CollapseSpacing(s: string)
    ensures SingleSpaced(Collapse(s))
    decreases |s|
  {
    if s != [] {
      var t := if IsSpace(s[0]) then TrimStart(s) else s[1..];
      var c := if IsSpace(s[0]) then ' ' else s[0];
      CollapseHead(s);
      CollapseSpacing(t);
      var rt := Collapse(t);
      if rt != [] && IsSpace(c) {
        CollapseHead(t);
        assert !IsSpace(rt[0]);
      }
      ConsSingleSpaced(c, rt);
    }
  }

  /** `segment.charAt(0).toUpperCase() + segment.slice(1).toLowerCase()`. */
  function TitleCase(w: string): string
  {
    if w == [] then [] else [ToUpper(w[0])] + LowerStr(w[1..])
  }

  function TitleCaseAll(words: seq<string>): (r: seq<string>)
    ensures |r| == |words|
    ensures forall k | 0 <= k < |words| :: r[k] == TitleCase(words[k])
  {
    seq(|words|, k requires 0 <= k < |words| => TitleCase(words[k]))
  }

  /**
    * `normalizeName`: trim, collapse whitespace, title-case each space-separated
    * word. The result has no whitespace at either end and no run of
    * whitespace, and is empty exactly for whitespace-only input.
    */
  function NormalizeName(raw: string): (r: string)
    ensures Clean(r)
    ensures r == [] <==> forall i | 0 <= i < |raw| :: IsSpace(raw[i])
  {
    var cleaned := Collapse(Trim(raw));
    if cleaned == [] then []
    else
      CleanedJoin(raw);
      Join(TitleCaseAll(Split(cleaned, ' ')), " ")
  }

  /** Title-casing the words of a trimmed, collapsed non-blank text and rejoining them gives a clean non-empty string. */
  lemma CleanedJoin(raw: string)
    requires Collapse(Trim(raw)) != []
    ensures var j := Join(TitleCaseAll(Split(Collapse(Trim(raw)), ' ')), " ");
      Clean(j) && j != []
  {
    var c := Collapse(Trim(raw));
    var words := Split(c, ' ');
    var ws := TitleCaseAll(words);
    CleanedIsClean(raw);
    CleanWords(c);
    forall k | 0 <= k < |ws| ensures ws[k] != [] && NoSpaceIn(ws[k]) {
      TitleCaseFacts(words[k]);
    }
    JoinWordsClean(ws);
  }

  lemma TitleCaseFacts(w: string)
    ensures |TitleCase(w)| == |w|
    ensures TitleCased(TitleCase(w))
    ensures TitleCased(w) ==> TitleCase(w) == w
    ensures NoSpaceIn(w) ==> NoSpaceIn(TitleCase(w))
    ensures LowerStr(TitleCase(w)) == LowerStr(w)
  {
    if w != [] {
      var t := TitleCase(w);
      CaseFacts(w[0]);
      forall i | 1 <= i < |w| ensures t[i] == ToLower(w[i]) && ToLower(t[i]) == t[i] {
        CaseFacts(w[i]);
      }
      if TitleCased(w) {
        assert t == w;
      }
    }
  }

  lemma SingleSpacedTail(s: string)
    requires s != [] && SingleSpaced(s)
    ensures SingleSpaced(s[1..])
  {
    forall i | 0 <= i < |s| - 2
      ensures !(IsSpace(s[1..][i]) && IsSpace(s[1..][i + 1]))
    {
      assert s[1..][i] == s[i + 1] && s[1..][i + 1] == s[i + 2];
    }
  }

  /** A single-spaced string is left alone by `Collapse`. */
  lemma {:induction false} CollapseSingleSpaced(s: string)
    requires SingleSpaced(s)
    ensures Collapse(s) == s
  {
    if s != [] {
      SingleSpacedTail(s);
      CollapseSingleSpaced(s[1..]);
      if IsSpace(s[0]) {
        assert TrimStart(s) == s[1..] by {
          assert s[1..] == [] || !IsSpace(s[1]);
          assert TrimStart(s) == TrimStart(s[1..]);
        }
        assert Collapse(s) == [' '] + s[1..];
        assert s[0] == ' ';
      } else {
        assert Collapse(s) == [s[0]] + s[1..];
      }
      assert [s[0]] + s[1..] == s;
    }
  }

  /** `Collapse` keeps every non-whitespace character, in order. */
  lemma {:induction false} CollapseKeepsContent(s: string)
    ensures Squeeze(Collapse(s)) == Squeeze(s)
    decreases |s|
  {
    if s != [] {
      if IsSpace(s[0]) {
        var t := TrimStart(s);
        CollapseKeepsContent(t);
        assert Collapse(s) == [' '] + Collapse(t);
        SqueezeConcat([' '], Collapse(t));
        assert Squeeze([' ']) == [];
        SqueezeTrimStart(s);
      } else {
        CollapseKeepsContent(s[1..]);
        assert Collapse(s) == [s[0]] + Collapse(s[1..]);
        SqueezeConcat([s[0]], Collapse(s[1..]));
        assert s == [s[0]] + s[1..];
        SqueezeConcat([s[0]], s[1..]);
      }
    }
  }

  /**
    * Splitting a single-spaced string that does not end in whitespace on
    * spaces gives pieces without whitespace, all non-empty after the first.
    */
  lemma {:induction false} SplitSingleSpaced(s: string)
    requires SingleSpaced(s) && (s == [] || !IsSpace(s[|s| - 1]))
    ensures forall k | 0 <= k < |Split(s, ' ')| :: NoSpaceIn(Split(s, ' ')[k])
    ensures forall k | 1 <= k < |Split(s, ' ')| :: Split(s, ' ')[k] != []
    ensures s != [] && !IsSpace(s[0]) ==> Split(s, ' ')[0] != []
  {
    if s != [] {
      var rest := Split(s[1..], ' ');
      SplitSingleSpaced(s[1..]);
      if s[0] == ' ' {
        assert |s| >= 2 && !IsSpace(s[1]);
      } else {
        assert !IsSpace(s[0]);
        var first := [s[0]] + rest[0];
        assert NoSpaceIn(first) by {
          forall i | 0 <= i < |first| ensures !IsSpace(first[i]) {
            if i > 0 { assert first[i] == rest[0][i - 1]; }
          }
        }
        assert Split(s, ' ') == [first] + rest[1..];
      }
    }
  }

  /** A clean, non-empty string splits into non-empty words without whitespace. */
  lemma CleanWords(c: string)
    requires Clean(c) && c != []
    ensures forall k | 0 <= k < |Split(c, ' ')| :: Split(c, ' ')[k] != [] && NoSpaceIn(Split(c, ' ')[k])
  {
    SplitSingleSpaced(c);
  }

  /** Two clean non-empty strings joined by one space give a clean string. */
  lemma CleanConcat(a: string, b: string)
    requires Clean(a) && Clean(b) && a != [] && b != []
    ensures Clean(a + " " + b)
  {
    var s := a + " " + b;
    assert s[|a|] == ' ';
    forall i | 0 <= i < |s| ensures IsSpace(s[i]) ==> s[i] == ' ' {
      if i > |a| { assert s[i] == b[i - |a| - 1]; }
    }
    forall i | 0 <= i < |s| - 1 ensures !(IsSpace(s[i]) && IsSpace(s[i + 1])) {
      if i > |a| {
        assert s[i] == b[i - |a| - 1] && s[i + 1] == b[i - |a|];
      } else if i == |a| {
        assert s[i + 1] == b[0];
      }
    }
    assert s[|s| - 1] == b[|b| - 1];
  }

  /** Non-empty words without whitespace, joined by single spaces, give a clean string. */
  lemma {:induction false} JoinWordsClean(words: seq<string>)
    requires |words| >= 1
    requires forall k | 0 <= k < |words| :: words[k] != [] && NoSpaceIn(words[k])
    ensures Clean(Join(words, " ")) && Join(words, " ") != []
  {
    if |words| > 1 {
      JoinWordsClean(words[1..]);
      CleanConcat(words[0], Join(words[1..], " "));
    }
  }

  /** Lower-casing cannot tell a title-cased join from the original join. */
  lemma {:induction false} LowerJoinTitleCase(words: seq<string>)
    ensures LowerStr(Join(TitleCaseAll(words), " ")) == LowerStr(Join(words, " "))
  {
    var t := TitleCaseAll(words);
    if |words| == 1 {
      TitleCaseFacts(words[0]);
    } else if |words| > 1 {
      TitleCaseFacts(words[0]);
      assert t[1..] == TitleCaseAll(words[1..]);
      LowerJoinTitleCase(words[1..]);
      LowerStrConcat(t[0] + " ", Join(t[1..], " "));
      LowerStrConcat(t[0], " ");
      LowerStrConcat(words[0] + " ", Join(words[1..], " "));
      LowerStrConcat(words[0], " ");
    }
  }

  /** The words of a normalised non-empty name, and the fact that they survive re-splitting. */
  lemma NormalizeNameWords(raw: string)
    requires Collapse(Trim(raw)) != []
    ensures var ws := TitleCaseAll(Split(Collapse(Trim(raw)), ' '));
      && (forall k | 0 <= k < |ws| :: ws[k] != [] && NoSpaceIn(ws[k]) && TitleCased(ws[k]))
      && Split(NormalizeName(raw), ' ') == ws
      && Clean(NormalizeName(raw))
  {
    var c := Collapse(Trim(raw));
    var words := Split(c, ' ');
    var ws := TitleCaseAll(words);
    CleanedIsClean(raw);
    CleanWords(c);
    forall k | 0 <= k < |ws| ensures ws[k] != [] && NoSpaceIn(ws[k]) && TitleCased(ws[k]) {
      TitleCaseFacts(words[k]);
    }
    JoinWordsClean(ws);
    assert forall k | 0 <= k < |ws| :: ' ' !in ws[k];
    SplitJoin(ws, ' ');
  }

  /** Every space-separated word of a normalised name is non-empty and title-cased. */
  lemma NormalizeNameCasing(raw: string)
    ensures Normalized(NormalizeName(raw))
    ensures NormalizeName(raw) != [] ==>
      forall w | w in Split(NormalizeName(raw), ' ') :: w != [] && TitleCased(w)
  {
    if Collapse(Trim(raw)) != [] {
      NonBlankWords(raw);
    } else {
      BlankName(raw);
    }
  }

  lemma NonBlankWords(raw: string)
    requires Collapse(Trim(raw)) != []
    ensures NormalizeName(raw) != []
    ensures forall w | w in Split(NormalizeName(raw), ' ') :: w != [] && TitleCased(w)
  {
    NormalizeNameWords(raw);
    var ws := TitleCaseAll(Split(Collapse(Trim(raw)), ' '));
    assert Split(NormalizeName(raw), ' ') == ws;
    WordsTitleCased(ws);
  }

  lemma BlankName(raw: string)
    requires Collapse(Trim(raw)) == []
    ensures NormalizeName(raw) == [] && Normalized(NormalizeName(raw))
  {
    EmptyNormalized();
  }

  lemma EmptyNormalized()
    ensures Normalized([])
  {
    assert Split([], ' ') == [[]];
  }

  lemma WordsTitleCased(ws: seq<string>)
    requires forall k | 0 <= k < |ws| :: ws[k] != [] && NoSpaceIn(ws[k]) && TitleCased(ws[k])
    ensures forall w | w in ws :: w != [] && TitleCased(w)
  {
  }

  /** normalizeName changes only whitespace and letter case: the other characters survive in order. */
  lemma NormalizeNameContent(raw: string)
    ensures LowerStr(Squeeze(NormalizeName(raw))) == LowerStr(Squeeze(raw))
  {
    var t := Trim(raw);
    var c := Collapse(t);
    TrimKeepsContent(raw);
    CollapseKeepsContent(t);
    if c == [] {
      assert Squeeze(c) == [];
    } else {
      var r := NormalizeName(raw);
      var words := Split(c, ' ');
      JoinSplit(c, ' ');
      LowerJoinTitleCase(words);
      SqueezeLower(r);
      SqueezeLower(Join(words, " "));
    }
  }

  /** Trimming a clean string changes nothing. */
  lemma TrimClean(s: string)
    requires Clean(s)
    ensures Trim(s) == s
  {
    assert TrimStart(s) == s;
    assert TrimEnd(s) == s;
  }

  /** Title-casing words that are already title-cased changes nothing. */
  lemma TitleCaseAllFixpoint(words: seq<string>)
    requires forall w | w in words :: TitleCased(w)
    ensures TitleCaseAll(words) == words
  {
    forall k | 0 <= k < |words| ensures TitleCase(words[k]) == words[k] {
      assert words[k] in words;
      TitleCaseFacts(words[k]);
    }
  }

  /** A normalised name is its own normalisation. */
  lemma NormalizeNameFixpoint(s: string)
    requires Normalized(s)
    ensures NormalizeName(s) == s
  {
    TrimClean(s);
    CollapseSingleSpaced(s);
    assert Collapse(Trim(s)) == s;
    if s != [] {
      var words := Split(s, ' ');
      TitleCaseAllFixpoint(words);
      JoinSplit(s, ' ');
    }
  }

  /** Normalising twice is normalising once. */
  lemma NormalizeNameIdempotent(raw: string)
    ensures NormalizeName(NormalizeName(raw)) == NormalizeName(raw)
  {
    NormalizeNameCasing(raw);
    NormalizeNameFixpoint(NormalizeName(raw));
  }

  /** The word being read, if it has any characters. */
  function Flush(cur: string): (r: seq<string>)
    ensures cur == [] ==> r == []
    ensures cur != [] ==> r == [cur]
  {
    if cur == [] then [] else [cur]
  }

  /**
    * Reads `s` left to right after the partial word `cur`: a whitespace
    * character ends the word being read, and empty words are dropped.
    */
  function WordsFrom(s: string, cur: string): (r: seq<string>)
    requires NoSpaceIn(cur)
    ensures forall k | 0 <= k < |r| :: r[k] != [] && NoSpaceIn(r[k])
    decreases |s|
  {
    if s == [] then Flush(cur)
    else if IsSpace(s[0]) then Flush(cur) + WordsFrom(s[1..], [])
    else
      assert NoSpaceIn(cur + [s[0]]) by {
        forall i | 0 <= i < |cur| + 1 ensures !IsSpace((cur + [s[0]])[i]) {
          if i < |cur| { assert (cur + [s[0]])[i] == cur[i]; }
        }
      }
      WordsFrom(s[1..], cur + [s[0]])
  }

  /** The words of `s`: its maximal runs of non-whitespace characters, in order. */
  function Words(s: string): (r: seq<string>)
    ensures forall k | 0 <= k < |r| :: r[k] != [] && NoSpaceIn(r[k])
  {
    WordsFrom(s, [])
  }

  /** Leading whitespace separates no words. */
  lemma {:induction false} WordsTrimStart(s: string)
    ensures WordsFrom(TrimStart(s), []) == WordsFrom(s, [])
    decreases |s|
  {
    if s != [] && IsSpace(s[0]) {
      var empty: string := [];
      assert TrimStart(s) == TrimStart(s[1..]);
      assert WordsFrom(s, empty) == Flush(empty) + WordsFrom(s[1..], empty);
      assert Flush(empty) + WordsFrom(s[1..], empty) == WordsFrom(s[1..], empty);
      WordsTrimStart(s[1..]);
    }
  }

  /** A whitespace character at the very end only ends the last word. */
  lemma {:induction false} WordsSnocSpace(p: string, c: char, cur: string)
    requires IsSpace(c) && NoSpaceIn(cur)
    ensures WordsFrom(p + [c], cur) == WordsFrom(p, cur)
    decreases |p|
  {
    if p == [] {
      assert p + [c] == [c];
      assert WordsFrom([c], cur) == Flush(cur) + WordsFrom([], []);
    } else {
      assert (p + [c])[1..] == p[1..] + [c];
      if IsSpace(p[0]) {
        WordsSnocSpace(p[1..], c, []);
      } else {
        assert NoSpaceIn(cur + [p[0]]) by {
          forall i | 0 <= i < |cur| + 1 ensures !IsSpace((cur + [p[0]])[i]) {
            if i < |cur| { assert (cur + [p[0]])[i] == cur[i]; }
          }
        }
        WordsSnocSpace(p[1..], c, cur + [p[0]]);
      }
    }
  }

  /** Trailing whitespace separates no words. */
  lemma {:induction false} WordsTrimEnd(s: string)
    ensures WordsFrom(TrimEnd(s), []) == WordsFrom(s, [])
    decreases |s|
  {
    if s != [] && IsSpace(s[|s| - 1]) {
      var p := s[..|s| - 1];
      WordsTrimEnd(p);
      assert s == p + [s[|s| - 1]];
      WordsSnocSpace(p, s[|s| - 1], []);
    }
  }

  /** A run of whitespace separates words exactly as one space does. */
  lemma {:induction false} WordsCollapse(s: string, cur: string)
    requires NoSpaceIn(cur)
    ensures WordsFrom(Collapse(s), cur) == WordsFrom(s, cur)
    decreases |s|
  {
    if s != [] {
      CollapseHead(s);
      if IsSpace(s[0]) {
        var t := TrimStart(s);
        WordsCollapse(t, []);
        assert ([' '] + Collapse(t))[1..] == Collapse(t);
        WordsTrimStart(s[1..]);
        assert TrimStart(s) == TrimStart(s[1..]);
      } else {
        assert ([s[0]] + Collapse(s[1..]))[1..] == Collapse(s[1..]);
        assert NoSpaceIn(cur + [s[0]]) by {
          forall i | 0 <= i < |cur| + 1 ensures !IsSpace((cur + [s[0]])[i]) {
            if i < |cur| { assert (cur + [s[0]])[i] == cur[i]; }
          }
        }
        WordsCollapse(s[1..], cur + [s[0]]);
      }
    }
  }

  /**
    * In a single-spaced string that does not end in whitespace, reading
    * after a partial word glues it onto the first space-separated piece.
    */
  lemma {:induction false} WordsSingleSpaced(c: string, cur: string)
    requires SingleSpaced(c) && (c == [] || !IsSpace(c[|c| - 1]))
    requires NoSpaceIn(cur)
    requires cur != [] || (c != [] && !IsSpace(c[0]))
    ensures WordsFrom(c, cur) == [cur + Split(c, ' ')[0]] + Split(c, ' ')[1..]
    decreases |c|
  {
    if c == [] {
      assert cur + [] == cur;
    } else {
      var pieces := Split(c[1..], ' ');
      SingleSpacedTail(c);
      if IsSpace(c[0]) {
        assert c[0] == ' ';
        assert |c| >= 2 && !IsSpace(c[1]);
        WordsSingleSpaced(c[1..], []);
        assert [] + pieces[0] == pieces[0];
        assert pieces == [pieces[0]] + pieces[1..];
        assert cur + [] == cur;
      } else {
        assert NoSpaceIn(cur + [c[0]]) by {
          forall i | 0 <= i < |cur| + 1 ensures !IsSpace((cur + [c[0]])[i]) {
            if i < |cur| { assert (cur + [c[0]])[i] == cur[i]; }
          }
        }
        WordsSingleSpaced(c[1..], cur + [c[0]]);
        assert (cur + [c[0]]) + pieces[0] == cur + ([c[0]] + pieces[0]);
      }
    }
  }

  /** Trimming and collapsing whitespace keep the words. */
  lemma WordsCleaned(raw: string)
    ensures Words(Collapse(Trim(raw))) == Words(raw)
  {
    var t := TrimStart(raw);
    WordsTrimStart(raw);
    WordsTrimEnd(t);
    assert Trim(raw) == TrimEnd(t);
    WordsCollapse(Trim(raw), []);
  }

  /** Trimming and then collapsing leaves a clean text. */
  lemma CleanedIsClean(raw: string)
    ensures Clean(Collapse(Trim(raw)))
  {
    CollapseFacts(Trim(raw));
  }

  /** The space-separated pieces of a clean non-empty text are its words. */
  lemma CleanPiecesAreWords(c: string)
    requires Clean(c) && c != []
    ensures Split(c, ' ') == Words(c)
  {
    WordsSingleSpaced(c, []);
    var pieces := Split(c, ' ');
    var empty: string := [];
    assert empty + pieces[0] == pieces[0];
    assert [pieces[0]] + pieces[1..] == pieces;
  }

  /** The space-separated pieces of a trimmed, collapsed non-blank text are the words of the raw text. */
  lemma CleanedPiecesAreWords(raw: string)
    requires Collapse(Trim(raw)) != []
    ensures Split(Collapse(Trim(raw)), ' ') == Words(raw)
  {
    WordsCleaned(raw);
    CleanedIsClean(raw);
    CleanPiecesAreWords(Collapse(Trim(raw)));
  }

  /**
    * normalizeName keeps the words of the input, title-cases each one and
    * joins them with one space; a non-blank name splits back into exactly
    * those words.
    */
  lemma NormalizeNameIsWords(raw: string)
    ensures NormalizeName(raw) == Join(TitleCaseAll(Words(raw)), " ")
    ensures NormalizeName(raw) != [] ==> Split(NormalizeName(raw), ' ') == TitleCaseAll(Words(raw))
  {
    var c := Collapse(Trim(raw));
    if c == [] {
      WordsCleaned(raw);
      assert Words(c) == [];
    } else {
      CleanedPiecesAreWords(raw);
      NormalizeNameWords(raw);
    }
  }

  // ---------------------------------------------------------------------------
  // parseNamesFromText
  // ---------------------------------------------------------------------------

  /** The single-character separators of `/\r?\n|,|;/`. */
  predicate IsSeparator(c: char) {
    c == '\n' || c == ',' || c == ';'
  }

  predicate NoSeparatorIn(s: string) {
    '\n' !in s && ',' !in s && ';' !in s
  }

  /**
    * `text.split(/\r?\n|,|;/)`, reading left to right with `cur` the piece
    * read so far: a `\r` is swallowed only when a `\n` follows it.
    */
  function PiecesFrom(cur: string, text: string): (r: seq<string>)
    ensures |r| >= 1
    decreases |text|
  {
    if text == [] then [cur]
    else if |text| >= 2 && text[0] == '\r' && text[1] == '\n' then [cur] + PiecesFrom([], text[2..])
    else if IsSeparator(text[0]) then [cur] + PiecesFrom([], text[1..])
    else PiecesFrom(cur + [text[0]], text[1..])
  }

  function Pieces(text: string): (r: seq<string>)
  {
    PiecesFrom([], text)
  }

  /** No piece holds a separator. */
  lemma {:induction false} PiecesFromNoSeparator(cur: string, text: string)
    requires NoSeparatorIn(cur)
    ensures forall k | 0 <= k < |PiecesFrom(cur, text)| :: NoSeparatorIn(PiecesFrom(cur, text)[k])
    decreases |text|
  {
    if text == [] {
    } else if |text| >= 2 && text[0] == '\r' && text[1] == '\n' {
      PiecesFromNoSeparator([], text[2..]);
    } else if IsSeparator(text[0]) {
      PiecesFromNoSeparator([], text[1..]);
    } else {
      assert NoSeparatorIn(cur + [text[0]]);
      PiecesFromNoSeparator(cur + [text[0]], text[1..]);
    }
  }

  lemma PiecesNoSeparator(text: string)
    ensures forall k | 0 <= k < |Pieces(text)| :: NoSeparatorIn(Pieces(text)[k])
  {
    PiecesFromNoSeparator([], text);
  }

  /** `.map(f)` on strings. */
  function MapStrings(f: string -> string, ss: seq<string>): (r: seq<string>)
    ensures |r| == |ss|
    ensures forall k | 0 <= k < |ss| :: r[k] == f(ss[k])
  {
    seq(|ss|, k requires 0 <= k < |ss| => f(ss[k]))
  }

  /** `.filter(Boolean)` on strings: the non-empty ones, in order. */
  function NonEmpty(ns: seq<string>): (r: seq<string>)
    ensures forall x :: x in r <==> x in ns && x != []
  {
    if ns == [] then []
    else (if ns[0] == [] then [] else [ns[0]]) + NonEmpty(ns[1..])
  }

  /**
    * `parseNamesFromText`: every name it yields is non-empty, already
    * normalised, and free of separators.
    */
  function ParseNamesFromText(text: string): (r: seq<string>)
    ensures forall n | n in r :: ParsedName(n)
  {
    PiecesNoSeparator(text);
    NormalizeAllNames(Pieces(text));
    NonEmpty(MapStrings(NormalizeName, Pieces(text)))
  }

  /** A non-whitespace character survives `Squeeze`. */
  lemma {:induction false} SqueezeKeeps(s: string, i: nat)
    requires i < |s| && !IsSpace(s[i])
    ensures s[i] in Squeeze(s)
  {
    if i > 0 {
      SqueezeKeeps(s[1..], i - 1);
    }
  }

  /** A character that case mapping leaves alone is matched only by itself under lower-casing. */
  lemma LowerPreimage(x: string, y: string, c: char)
    requires LowerStr(x) == LowerStr(y) && c in x
    requires !('A' <= c <= 'Z') && !('a' <= c <= 'z')
    ensures c in y
  {
    var k :| 0 <= k < |x| && x[k] == c;
    assert ToLower(y[k]) == c;
  }

  /** A comma or semicolon absent from `p` is absent from any `r` that agrees with `p` on non-whitespace content up to case. */
  lemma PunctuationFromContent(p: string, r: string, c: char)
    requires c == ',' || c == ';'
    requires LowerStr(Squeeze(r)) == LowerStr(Squeeze(p))
    requires c !in p
    ensures c !in r
  {
    if c in r {
      var i :| 0 <= i < |r| && r[i] == c;
      SqueezeKeeps(r, i);
      LowerPreimage(Squeeze(r), Squeeze(p), c);
      var k :| 0 <= k < |Squeeze(p)| && Squeeze(p)[k] == c;
      SqueezeChars(p, k);
    }
  }

  /** A clean string with the same non-whitespace content, up to case, as a separator-free one has no separator. */
  lemma NoSeparatorFromContent(p: string, r: string)
    requires Clean(r)
    requires LowerStr(Squeeze(r)) == LowerStr(Squeeze(p))
    requires NoSeparatorIn(p)
    ensures NoSeparatorIn(r)
  {
    PunctuationFromContent(p, r, ',');
    PunctuationFromContent(p, r, ';');
    CleanHasNoNewline(r);
  }

  lemma CleanHasNoNewline(r: string)
    requires Clean(r)
    ensures '\n' !in r
  {
  }

  /** A normalised piece still holds no separator: normalising only drops whitespace and changes case. */
  lemma NormalizeKeepsNoSeparator(p: string)
    requires NoSeparatorIn(p)
    ensures NoSeparatorIn(NormalizeName(p))
  {
    NormalizeNameContent(p);
    NoSeparatorFromContent(p, NormalizeName(p));
  }

  /** Each character kept by `Squeeze` comes from the input. */
  lemma {:induction false} SqueezeChars(s: string, k: nat)
    requires k < |Squeeze(s)|
    ensures Squeeze(s)[k] in s
  {
    if s != [] {
      if IsSpace(s[0]) {
        SqueezeChars(s[1..], k);
      } else if k > 0 {
        SqueezeChars(s[1..], k - 1);
      }
    }
  }

  /** What every parsed name satisfies. */
  predicate ParsedName(n: string) {
    && n != []
    && NormalizeName(n) == n
    && NoSeparatorIn(n)
  }

  lemma NormalizePiece(p: string)
    requires NoSeparatorIn(p)
    ensures NormalizeName(p) != [] ==> ParsedName(NormalizeName(p))
  {
    NormalizeNameIdempotent(p);
    NormalizeKeepsNoSeparator(p);
  }

  /** Every parsed name is non-empty, normalised, and free of separators. */
  lemma NormalizeAllNames(pieces: seq<string>)
    requires forall k | 0 <= k < |pieces| :: NoSeparatorIn(pieces[k])
    ensures forall n | n in NonEmpty(MapStrings(NormalizeName, pieces)) :: ParsedName(n)
  {
    var ns := MapStrings(NormalizeName, pieces);
    forall n | n in NonEmpty(ns) ensures ParsedName(n) {
      var k :| 0 <= k < |ns| && ns[k] == n;
      NormalizePiece(pieces[k]);
    }
  }

  lemma MapStringsConcat(f: string -> string, a: seq<string>, b: seq<string>)
    ensures MapStrings(f, a + b) == MapStrings(f, a) + MapStrings(f, b)
  {
    var l, r := MapStrings(f, a + b), MapStrings(f, a) + MapStrings(f, b);
    forall k | 0 <= k < |a + b| ensures l[k] == r[k] {
      if k < |a| {
        assert (a + b)[k] == a[k];
      } else {
        assert (a + b)[k] == b[k - |a|];
      }
    }
  }

  lemma {:induction false} NonEmptyConcat(a: seq<string>, b: seq<string>)
    ensures NonEmpty(a + b) == NonEmpty(a) + NonEmpty(b)
  {
    if a == [] {
      assert a + b == b;
    } else {
      assert (a + b)[1..] == a[1..] + b;
      NonEmptyConcat(a[1..], b);
    }
  }

  /** A piece free of separators is read whole, onto the piece read so far. */
  lemma {:induction false} PiecesFromPlain(cur: string, p: string)
    requires NoSeparatorIn(p)
    ensures PiecesFrom(cur, p) == [cur + p]
    decreases |p|
  {
    if p != [] {
      assert p[0] in p && (|p| >= 2 ==> p[1] in p);
      assert NoSeparatorIn(p[1..]) by {
        forall x | x in p[1..] ensures x in p {
        }
      }
      assert !IsSeparator(p[0]) && !(|p| >= 2 && p[0] == '\r' && p[1] == '\n');
      assert PiecesFrom(cur, p) == PiecesFrom(cur + [p[0]], p[1..]);
      PiecesFromPlain(cur + [p[0]], p[1..]);
      assert cur + [p[0]] + p[1..] == cur + p;
    } else {
      assert cur + p == cur;
    }
  }

  /** Text without a separator parses to its normalised self, or to nothing when that is blank. */
  lemma ParseNamesSingle(p: string)
    requires NoSeparatorIn(p)
    ensures ParseNamesFromText(p) == if NormalizeName(p) == [] then [] else [NormalizeName(p)]
  {
    PiecesFromPlain([], p);
    var empty: string := [];
    assert empty + p == p;
    assert Pieces(p) == [p];
    var n := NormalizeName(p);
    var mapped := MapStrings(NormalizeName, [p]);
    assert mapped == [n] by {
      assert |mapped| == 1 && mapped[0] == n;
    }
    NonEmptySingle(n);
  }

  lemma NonEmptySingle(n: string)
    ensures NonEmpty([n]) == if n == [] then [] else [n]
  {
    assert [n][1..] == [];
  }

  /**
    * The separators the pattern `/\r?\n|,|;/` matches. A `\n` preceded by `\r`
    * is matched as `\r\n`, so a text is cut at `\n` alone only where no `\r`
    * comes just before it.
    */
  predicate Separator(sep: string) {
    sep == "," || sep == ";" || sep == "\n" || sep == "\r\n"
  }

  predicate CutBefore(a: string, sep: string) {
    sep == "\n" ==> a == [] || a[|a| - 1] != '\r'
  }

  /** A separator at the front closes the piece read so far. */
  lemma PiecesFromSeparator(cur: string, sep: string, b: string)
    requires Separator(sep)
    ensures PiecesFrom(cur, sep + b) == [cur] + PiecesFrom([], b)
  {
    var s := sep + b;
    if sep == "\r\n" {
      assert s[2..] == b;
    } else {
      assert s[1..] == b;
    }
  }

  /** The first character of `a` is read the same way whatever follows the cut. */
  lemma PiecesFromFirst(a: string, sep: string, b: string)
    requires a != [] && Separator(sep) && CutBefore(a, sep)
    ensures var s := a + sep + b;
      && s[0] == a[0] && s[1..] == a[1..] + sep + b
      && (|s| >= 2 && s[0] == '\r' && s[1] == '\n' <==> |a| >= 2 && a[0] == '\r' && a[1] == '\n')
  {
    var s := a + sep + b;
    if |a| == 1 {
      assert s[1] == sep[0];
    } else {
      assert s[1] == a[1];
    }
  }

  /** Cutting the text at a separator cuts the piece list at the same place. */
  lemma {:induction false} PiecesFromConcat(cur: string, a: string, sep: string, b: string)
    requires Separator(sep) && CutBefore(a, sep)
    ensures PiecesFrom(cur, a + sep + b) == PiecesFrom(cur, a) + PiecesFrom([], b)
    decreases |a|
  {
    if a == [] {
      assert a + sep + b == sep + b;
      PiecesFromSeparator(cur, sep, b);
    } else {
      var s := a + sep + b;
      PiecesFromFirst(a, sep, b);
      if |a| >= 2 && a[0] == '\r' && a[1] == '\n' {
        assert s[2..] == a[2..] + sep + b;
        assert CutBefore(a[2..], sep);
        PiecesFromConcat([], a[2..], sep, b);
      } else if IsSeparator(a[0]) {
        assert CutBefore(a[1..], sep);
        PiecesFromConcat([], a[1..], sep, b);
      } else {
        assert CutBefore(a[1..], sep);
        PiecesFromConcat(cur + [a[0]], a[1..], sep, b);
      }
    }
  }

  /**
    * Text joined at `,`, `;`, `\n` or `\r\n` parses to the two halves' names,
    * in order; with `ParseNamesSingle` this determines the parse of every text.
    */
  lemma ParseNamesConcat(a: string, sep: string, b: string)
    requires Separator(sep) && CutBefore(a, sep)
    ensures ParseNamesFromText(a + sep + b) == ParseNamesFromText(a) + ParseNamesFromText(b)
  {
    PiecesFromConcat([], a, sep, b);
    MapStringsConcat(NormalizeName, Pieces(a), Pieces(b));
    NonEmptyConcat(MapStrings(NormalizeName, Pieces(a)), MapStrings(NormalizeName, Pieces(b)));
  }

  // ---------------------------------------------------------------------------
  // mergeUniqueNames
  // ---------------------------------------------------------------------------

  /** `name.toLocaleLowerCase('pt-BR')`: the identity of a name. */
  function Key(name: string): string
  {
    LowerStr(name)
  }

  function Keys(names: seq<string>): (r: seq<string>)
    ensures |r| == |names|
    ensures forall i | 0 <= i < |names| :: r[i] == Key(names[i])
  {
    seq(|names|, i requires 0 <= i < |names| => Key(names[i]))
  }

  /** No two names share a key. */
  predicate UniqueKeys(names: seq<string>) {
    forall i, j | 0 <= i < j < |names| :: Key(names[i]) != Key(names[j])
  }

  /** `a` is `b` with some elements left out, order kept. */
  predicate IsSubsequence<T(==)>(a: seq<T>, b: seq<T>)
    decreases |b|
  {
    a == [] || (b != [] && ((a[0] == b[0] && IsSubsequence(a[1..], b[1..])) || IsSubsequence(a, b[1..])))
  }

  /** The inner `push`: keep the name unless its key has been seen. */
  function Push(acc: seq<string>, name: string): seq<string>
  {
    if Key(name) in Keys(acc) then acc else acc + [name]
  }

  /** `names.forEach(push)` starting from `acc`. */
  function PushAll(acc: seq<string>, names: seq<string>): seq<string>
    decreases |names|
  {
    if names == [] then acc else PushAll(Push(acc, names[0]), names[1..])
  }

  /**
    * What `mergeUniqueNames(current, incoming)` returns: no two entries share
    * a lower-cased key, and the key of every input name is represented.
    */
  function Merged(current: seq<string>, incoming: seq<string>): (r: seq<string>)
    ensures UniqueKeys(r)
    ensures forall i | 0 <= i < |current| :: Key(current[i]) in Keys(r)
    ensures forall i | 0 <= i < |incoming| :: Key(incoming[i]) in Keys(r)
  {
    PushAllFacts([], current);
    PushAllFacts(PushAll([], current), incoming);
    PushAll(PushAll([], current), incoming)
  }

  lemma KeysAppend(acc: seq<string>, name: string)
    ensures Keys(acc + [name]) == Keys(acc) + [Key(name)]
  {
  }

  lemma KeysConcat(a: seq<string>, b: seq<string>)
    ensures Keys(a + b) == Keys(a) + Keys(b)
  {
  }

  lemma {:induction false} PushAllConcat(acc: seq<string>, a: seq<string>, b: seq<string>)
    ensures PushAll(acc, a + b) == PushAll(PushAll(acc, a), b)
    decreases |a|
  {
    if a == [] {
      assert a + b == b;
    } else {
      assert (a + b)[1..] == a[1..] + b;
      PushAllConcat(Push(acc, a[0]), a[1..], b);
    }
  }

  /**
    * Pushing keeps the accumulator as a prefix, appends a subsequence of the
    * input, never repeats a key, and leaves every input key represented.
    */
  lemma PushAllFacts(acc: seq<string>, names: seq<string>)
    requires UniqueKeys(acc)
    ensures var r := PushAll(acc, names);
      && |acc| <= |r| && r[..|acc|] == acc
      && IsSubsequence(r[|acc|..], names)
      && UniqueKeys(r)
      && (forall k | k in Keys(acc) :: k in Keys(r))
      && (forall i | 0 <= i < |names| :: Key(names[i]) in Keys(r))
  {
    PushAllPrefix(acc, names);
    PushAllKeepsUnique(acc, names);
    PushAllCovers(acc, names);
  }

  /** Pushing one name never repeats a key. */
  lemma PushKeepsUnique(acc: seq<string>, name: string)
    requires UniqueKeys(acc)
    ensures UniqueKeys(Push(acc, name))
  {
    if Key(name) !in Keys(acc) {
      var p := acc + [name];
      forall i | 0 <= i < |acc| ensures Key(p[i]) != Key(name) {
        assert Keys(acc)[i] == Key(acc[i]);
      }
    }
  }

  lemma {:induction false} PushAllKeepsUnique(acc: seq<string>, names: seq<string>)
    requires UniqueKeys(acc)
    ensures UniqueKeys(PushAll(acc, names))
    decreases |names|
  {
    if names != [] {
      PushKeepsUnique(acc, names[0]);
      PushAllKeepsUnique(Push(acc, names[0]), names[1..]);
    }
  }

  lemma {:induction false} PushAllPrefix(acc: seq<string>, names: seq<string>)
    ensures var r := PushAll(acc, names);
      && |acc| <= |r| && r[..|acc|] == acc
      && IsSubsequence(r[|acc|..], names)
    decreases |names|
  {
    var r := PushAll(acc, names);
    if names != [] {
      var p := Push(acc, names[0]);
      PushAllPrefix(p, names[1..]);
      assert r == PushAll(p, names[1..]);
      assert r[..|p|] == p;
      if Key(names[0]) in Keys(acc) {
        assert p == acc;
      } else {
        assert p == acc + [names[0]];
        assert r[|acc|..] == [names[0]] + r[|p|..];
      }
    } else {
      assert r[|acc|..] == [];
    }
  }

  lemma {:induction false} PushAllCovers(acc: seq<string>, names: seq<string>)
    ensures var r := PushAll(acc, names);
      && (forall k | k in Keys(acc) :: k in Keys(r))
      && (forall i | 0 <= i < |names| :: Key(names[i]) in Keys(r))
    decreases |names|
  {
    if names != [] {
      var p := Push(acc, names[0]);
      var r := PushAll(p, names[1..]);
      KeysAppend(acc, names[0]);
      PushAllCovers(p, names[1..]);
      assert Key(names[0]) in Keys(p);
      forall k | k in Keys(acc) ensures k in Keys(p) {
      }
      forall i | 0 <= i < |names| ensures Key(names[i]) in Keys(r) {
        if i > 0 { assert names[i] == names[1..][i - 1]; }
      }
    }
  }

  /** Pushing names whose keys are all present already changes nothing. */
  lemma {:induction false} PushAllPresent(acc: seq<string>, names: seq<string>)
    requires forall i | 0 <= i < |names| :: Key(names[i]) in Keys(acc)
    ensures PushAll(acc, names) == acc
    decreases |names|
  {
    if names != [] {
      PushAllPresent(acc, names[1..]);
    }
  }

  /** Pushing a key-unique list onto an accumulator it does not clash with appends all of it. */
  lemma {:induction false} PushAllUnique(acc: seq<string>, names: seq<string>)
    requires UniqueKeys(acc + names)
    ensures PushAll(acc, names) == acc + names
    decreases |names|
  {
    if names != [] {
      KeysAppend(acc, names[0]);
      forall i | 0 <= i < |acc| ensures Key(acc[i]) != Key(names[0]) {
        assert (acc + names)[i] == acc[i] && (acc + names)[|acc|] == names[0];
      }
      assert Key(names[0]) !in Keys(acc);
      assert acc + names == (acc + [names[0]]) + names[1..];
      PushAllUnique(acc + [names[0]], names[1..]);
    }
  }

  /**
    * The merge lists the kept names of `current` first and then those of
    * `incoming`, each in input order, and every input key is represented.
    */
  lemma MergeOrderAndCoverage(current: seq<string>, incoming: seq<string>)
    ensures var m := Merged(current, incoming);
      var c := Merged(current, []);
      && |c| <= |m| && m[..|c|] == c
      && IsSubsequence(c, current)
      && IsSubsequence(m[|c|..], incoming)
      && (forall i | 0 <= i < |current| :: Key(current[i]) in Keys(m))
      && (forall i | 0 <= i < |incoming| :: Key(incoming[i]) in Keys(m))
  {
    var c := PushAll([], current);
    assert Merged(current, []) == c;
    PushAllFacts([], current);
    assert c[0..] == c;
    PushAllFacts(c, incoming);
  }

  /** A list that already has unique keys is its own merge with nothing, so the merge keeps it as a prefix. */
  lemma MergeKeepsUniqueCurrent(current: seq<string>, incoming: seq<string>)
    requires UniqueKeys(current)
    ensures Merged(current, []) == current
    ensures |current| <= |Merged(current, incoming)|
    ensures Merged(current, incoming)[..|current|] == current
  {
    assert [] + current == current;
    PushAllUnique([], current);
    MergeOrderAndCoverage(current, incoming);
  }

  /** The first name with a given key is the one kept: first-seen casing wins. */
  lemma {:induction false} PushAllFirstSeen(acc: seq<string>, names: seq<string>, i: nat)
    requires i < |names|
    requires Key(names[i]) !in Keys(acc)
    requires forall j | 0 <= j < i :: Key(names[j]) != Key(names[i])
    ensures names[i] in PushAll(acc, names)
    decreases |names|
  {
    var p := Push(acc, names[0]);
    KeysAppend(acc, names[0]);
    if i == 0 {
      PushAllFacts0(p, names[1..]);
    } else {
      PushAllFirstSeen(p, names[1..], i - 1);
    }
  }

  /** Pushing never drops what the accumulator holds. */
  lemma {:induction false} PushAllFacts0(acc: seq<string>, names: seq<string>)
    ensures forall x | x in acc :: x in PushAll(acc, names)
    decreases |names|
  {
    if names != [] {
      PushAllFacts0(Push(acc, names[0]), names[1..]);
    }
  }

  /** The merge keeps, for each key, the first-seen name across `current` then `incoming`. */
  lemma MergeFirstSeen(current: seq<string>, incoming: seq<string>, i: nat)
    requires i < |current + incoming|
    requires forall j | 0 <= j < i :: Key((current + incoming)[j]) != Key((current + incoming)[i])
    ensures (current + incoming)[i] in Merged(current, incoming)
  {
    PushAllConcat([], current, incoming);
    PushAllFirstSeen([], current + incoming, i);
  }

  /** Merging the same incoming names again changes nothing. */
  lemma MergeIdempotent(a: seq<string>, b: seq<string>)
    ensures Merged(Merged(a, b), b) == Merged(a, b)
  {
    var m := Merged(a, b);
    MergeOrderAndCoverage(a, b);
    assert [] + m == m;
    PushAllUnique([], m);
    PushAllPresent(m, b);
  }

  /** The documented example: three casings of one name merge into the first. */
  lemma MergeExample()
    ensures Merged([], ["Ana", "ana", "ANA"]) == ["Ana"]
  {
    assert Key("Ana") == "ana" && Key("ana") == "ana" && Key("ANA") == "ana";
    assert PushAll([], []) == [];
    assert Push([], "Ana") == ["Ana"];
    assert Keys(["Ana"]) == ["ana"];
    assert Push(["Ana"], "ana") == ["Ana"];
    assert Push(["Ana"], "ANA") == ["Ana"];
    assert ["Ana", "ana", "ANA"][1..] == ["ana", "ANA"];
    assert ["ana", "ANA"][1..] == ["ANA"];
    assert ["ANA"][1..] == [];
  }

  /**
    * `names.forEach(push)`: `seen` maps each key already kept to its name,
    * `ordered` is the list kept so far.
    */
  method PushEach(seen0: map<string, string>, ordered0: seq<string>, names: seq<string>)
    returns (seen: map<string, string>, ordered: seq<string>)
    requires forall k :: k in seen0 <==> k in Keys(ordered0)
    ensures ordered == PushAll(ordered0, names)
    ensures forall k :: k in seen <==> k in Keys(ordered)
  {
    seen, ordered := seen0, ordered0;
    var i := 0;
    while i < |names|
      invariant 0 <= i <= |names|
      invariant PushAll(ordered, names[i..]) == PushAll(ordered0, names)
      invariant forall k :: k in seen <==> k in Keys(ordered)
    {
      var name := names[i];
      var key := Key(name);
      assert names[i..] == [name] + names[i + 1..];
      KeysAppend(ordered, name);
      if key !in seen {
        seen := seen[key := name];
        ordered := ordered + [name];
      }
      i := i + 1;
    }
    assert names[i..] == [];
  }

  /** `mergeUniqueNames`: push every current name, then every incoming one. */
  method MergeUniqueNames(current: seq<string>, incoming: seq<string>) returns (ordered: seq<string>)
    ensures ordered == Merged(current, incoming)
    ensures UniqueKeys(ordered)
  {
    var seen: map<string, string> := map[];
    seen, ordered := PushEach(seen, [], current);
    seen, ordered := PushEach(seen, ordered, incoming);
  }

  // ---------------------------------------------------------------------------
  // shuffleArray
  // ---------------------------------------------------------------------------

  /** One random number in [0, 1) for each step of the swap loop over `n` elements. */
  predicate RollsFor(rolls: seq<real>, n: nat) {
    |rolls| + 1 >= n && forall k | 0 <= k < |rolls| :: 0.0 <= rolls[k] < 1.0
  }

  function Swap<T>(s: seq<T>, i: nat, j: nat): (r: seq<T>)
    requires i < |s| && j < |s|
    ensures |r| == |s|
  {
    s[i := s[j]][j := s[i]]
  }

  /** Swapping two positions permutes the list. */
  lemma SwapPermutes<T>(s: seq<T>, i: nat, j: nat)
    requires i < |s| && j < |s|
    ensures multiset(Swap(s, i, j)) == multiset(s)
  {
  }

  /** The swap partners of a loop over `n` elements: step `k` of the loop may pick any index up to `n - 1 - k`. */
  predicate PicksFor(js: seq<nat>, n: nat) {
    |js| + 1 >= n && forall k | 0 <= k < |js| :: js[k] < n - k
  }

  /** `Math.floor(Math.random() * (i + 1))` for each step, `i` running down from `n - 1` to 1. */
  function Picks(rolls: seq<real>, n: nat): (js: seq<nat>)
    requires n >= 1 && RollsFor(rolls, n)
    ensures |js| == n - 1 && PicksFor(js, n)
    ensures forall k | 0 <= k < n - 1 :: js[k] == RandomIndex(rolls[k], n - k)
  {
    seq(n - 1, k requires 0 <= k < n - 1 => RandomIndex(rolls[k], n - k))
  }

  /** The swap loop from index `i` down to 1; step `i` swaps with partner number `|s| - 1 - i`. */
  function ShuffleFrom<T>(s: seq<T>, js: seq<nat>, i: nat): (r: seq<T>)
    requires i < |s| && PicksFor(js, |s|)
    ensures |r| == |s|
    decreases i
  {
    if i == 0 then s
    else ShuffleFrom(Swap(s, i, js[|s| - 1 - i]), js, i - 1)
  }

  /** Every run of the swap loop yields a permutation of its input. */
  lemma {:induction false} ShuffleFromPermutes<T>(s: seq<T>, js: seq<nat>, i: nat)
    requires i < |s| && PicksFor(js, |s|)
    ensures multiset(ShuffleFrom(s, js, i)) == multiset(s)
    decreases i
  {
    if i > 0 {
      var j := js[|s| - 1 - i];
      SwapPermutes(s, i, j);
      ShuffleFromPermutes(Swap(s, i, j), js, i - 1);
    }
  }

  /** What `shuffleArray(list)` returns, for the given random numbers: a permutation of `list`. */
  function Shuffled<T>(list: seq<T>, rolls: seq<real>): (r: seq<T>)
    requires RollsFor(rolls, |list|)
    ensures |r| == |list| && multiset(r) == multiset(list)
  {
    if |list| <= 1 then list
    else
      var js := Picks(rolls, |list|);
      ShuffleFromPermutes(list, js, |list| - 1);
      ShuffleFrom(list, js, |list| - 1)
  }

  /** The destructuring swap `[copy[i], copy[j]] = [copy[j], copy[i]]`, in place. */
  method SwapAt<T>(a: array<T>, i: nat, j: nat)
    requires i < a.Length && j < a.Length
    modifies a
    ensures a[..] == Swap(old(a[..]), i, j)
  {
    a[i], a[j] := a[j], a[i];
  }

  /** `shuffleArray`: copy the list into a fresh array and swap from the last index down. */
  method ShuffleArray<T>(list: seq<T>, rolls: seq<real>) returns (r: seq<T>)
    requires RollsFor(rolls, |list|)
    ensures r == Shuffled(list, rolls)
    ensures |r| == |list| && multiset(r) == multiset(list)
  {
    var n := |list|;
    var copy := new T[n](k requires 0 <= k < n => list[k]);
    assert copy[..] == list;
    if n <= 1 {
      return copy[..];
    }
    var i := n - 1;
    ghost var js := Picks(rolls, n);
    while i > 0
      invariant 0 <= i < n && copy.Length == n
      invariant ShuffleFrom(copy[..], js, i) == Shuffled(list, rolls)
    {
      var j := RandomIndex(rolls[n - 1 - i], i + 1);
      assert j == js[n - 1 - i];
      SwapAt(copy, i, j);
      i := i - 1;
    }
    r := copy[..];
  }
}
