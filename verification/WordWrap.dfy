/** The greedy word wrap that lays out a refusal (scripts/not-implemented.ts). */
module WordWrap {
  import opened Text

  const SPACE: char := ' '

  /** The lines still to come, given the line in progress and the words left. */
  function Fill(line: string, words: seq<string>, width: int): seq<string>
    decreases |words|
  {
    if words == [] then (if |line| > 0 then [line] else [])
    else if |line| + |words[0]| + 1 > width then [line] + Fill(words[0], words[1..], width)
    else Fill(if |line| == 0 then words[0] else line + [SPACE] + words[0], words[1..], width)
  }

  method Wrap(text: string, width: int) returns (out: seq<string>)
    ensures out == Fill("", Split(text, SPACE), width)
  {
    out := [];
    var line := "";
    var words := Split(text, SPACE);
    for k := 0 to |words|
      invariant out + Fill(line, words[k..], width) == Fill("", words, width)
    {
      var word := words[k];
      assert words[k..][0] == word && words[k..][1..] == words[k + 1..];
      if |line| + |word| + 1 > width {
        out := out + [line];
        line := word;
      } else {
        line := if |line| == 0 then word else line + [SPACE] + word;
      }
    }
    assert words[|words|..] == [];
    if |line| > 0 {
      out := out + [line];
    }
  }

  // ---- nothing is lost ----

  ghost predicate NoEmptyWord(words: seq<string>) {
    forall i :: 0 <= i < |words| ==> words[i] != ""
  }

  lemma {:induction false} FillRejoins(line: string, words: seq<string>, width: int)
    requires line != "" && NoEmptyWord(words)
    ensures var out := Fill(line, words, width); out != [] && Join(out, SPACE) == Join([line] + words, SPACE)
    decreases |words|
  {
    if words == [] {
    } else {
      assert ([line] + words)[1..] == words;
      assert [words[0]] + words[1..] == words;
      if |line| + |words[0]| + 1 > width {
        FillRejoins(words[0], words[1..], width);
      } else {
        var longer := line + [SPACE] + words[0];
        FillRejoins(longer, words[1..], width);
        assert ([longer] + words[1..])[1..] == words[1..];
      }
    }
  }

  /**
   * Joining the lines by single spaces gives the text back exactly when the first
   * word is shorter than the width. Otherwise the test written for a non-empty
   * line pushes one empty line first, and the join starts with a stray space.
   */
  lemma WrapRejoins(text: string, width: int)
    requires NoEmptyWord(Split(text, SPACE))
    ensures var out := Fill("", Split(text, SPACE), width);
            && (Join(out, SPACE) == text <==> |Split(text, SPACE)[0]| < width)
            && (|Split(text, SPACE)[0]| >= width ==> out[0] == "" && Join(out, SPACE) == [SPACE] + text)
  {
    var words := Split(text, SPACE);
    JoinSplit(text, SPACE);
    assert [words[0]] + words[1..] == words;
    FillRejoins(words[0], words[1..], width);
    var lines := Fill(words[0], words[1..], width);
    assert Join(lines, SPACE) == text;
    if |words[0]| < width {
      assert Fill("", words, width) == lines;
    } else {
      assert Fill("", words, width) == [""] + lines && ([""] + lines)[1..] == lines;
      assert Join([""] + lines, SPACE) == [SPACE] + text;
      assert |[SPACE] + text| != |text|;
    }
  }

  /** The words on all lines, in order. */
  function WordsOf(lines: seq<string>): seq<string> {
    if lines == [] then [] else NonEmpty(Split(lines[0], SPACE)) + WordsOf(lines[1..])
  }

  lemma LongerLine(line: string, word: string)
    requires line != "" && SPACE !in word
    ensures NonEmpty(Split(line + [SPACE] + word, SPACE)) == NonEmpty(Split(line, SPACE)) + NonEmpty([word])
  {
    SplitBoth(line, SPACE, word);
    SplitPiece(word, SPACE);
    NonEmptyGrows(Split(line, SPACE), word);
    assert NonEmpty([word]) == if word == "" then [] else [word] by {
      NonEmptyGrows([], word);
      assert [] + [word] == [word];
    }
  }

  lemma {:induction false} FillKeepsWords(line: string, words: seq<string>, width: int)
    requires forall w :: w in words ==> SPACE !in w
    ensures WordsOf(Fill(line, words, width)) == NonEmpty(Split(line, SPACE)) + NonEmpty(words)
    decreases |words|
  {
    if words == [] {
      assert line == "" ==> Split(line, SPACE) == [""] && NonEmpty([""]) == [];
      assert WordsOf([line]) == NonEmpty(Split(line, SPACE)) + WordsOf([]);
    } else {
      var word, rest := words[0], words[1..];
      assert words == [word] + rest && NonEmpty(words) == NonEmpty([word]) + NonEmpty(rest);
      SplitPiece(word, SPACE);
      Regroup(NonEmpty(Split(line, SPACE)), NonEmpty([word]), NonEmpty(rest));
      if |line| + |word| + 1 > width {
        FillKeepsWords(word, rest, width);
        var lines := Fill(word, rest, width);
        assert ([line] + lines)[1..] == lines;
      } else if |line| == 0 {
        FillKeepsWords(word, rest, width);
        assert Split(line, SPACE) == [""] && NonEmpty([""]) == [];
      } else {
        LongerLine(line, word);
        FillKeepsWords(line + [SPACE] + word, rest, width);
      }
    }
  }

  /** For every text and width the words come out as they went in; only their spacing can change. */
  lemma WrapKeepsWords(text: string, width: int)
    ensures WordsOf(Fill("", Split(text, SPACE), width)) == NonEmpty(Split(text, SPACE))
  {
    FillKeepsWords("", Split(text, SPACE), width);
    assert Split("", SPACE) == [""] && NonEmpty([""]) == [];
  }

  /** With a width of one or more there is no empty last line, and no line at all exactly when there is no word. */
  lemma {:induction false} NoEmptyLastLine(line: string, words: seq<string>, width: int)
    requires width >= 1
    ensures var out := Fill(line, words, width);
            && (out != [] ==> out[|out| - 1] != "")
            && (out == [] <==> line == "" && forall i :: 0 <= i < |words| ==> words[i] == "")
    decreases |words|
  {
    if words == [] {
    } else if |line| + |words[0]| + 1 > width {
      NoEmptyLastLine(words[0], words[1..], width);
    } else {
      NoEmptyLastLine(if |line| == 0 then words[0] else line + [SPACE] + words[0], words[1..], width);
      assert forall i :: 1 <= i < |words| ==> words[i] == words[1..][i - 1];
    }
  }

  // ---- every line fits ----

  ghost predicate AllFit(lines: seq<string>, width: int) {
    forall l :: l in lines ==> |l| <= width
  }

  lemma {:induction false} FillFits(line: string, words: seq<string>, width: int)
    requires NoEmptyWord(words) && line != ""
    ensures AllFit(Fill(line, words, width), width) <==> |line| <= width && AllFit(words, width)
    decreases |words|
  {
    if words == [] {
      assert Fill(line, words, width)[0] == line;
    } else {
      assert forall w :: w in words <==> w == words[0] || w in words[1..];
      if |line| + |words[0]| + 1 > width {
        var rest := Fill(words[0], words[1..], width);
        FillFits(words[0], words[1..], width);
        assert Fill(line, words, width) == [line] + rest;
        assert forall l :: l in [line] + rest <==> l == line || l in rest;
      } else {
        FillFits(line + [SPACE] + words[0], words[1..], width);
      }
    }
  }

  /** Every line fits the width exactly when every word does. */
  lemma WrapFits(words: seq<string>, width: int)
    requires words != [] && NoEmptyWord(words)
    ensures AllFit(Fill("", words, width), width) <==> AllFit(words, width)
  {
    var rest := Fill(words[0], words[1..], width);
    FillFits(words[0], words[1..], width);
    assert forall w :: w in words <==> w == words[0] || w in words[1..];
    if |words[0]| >= width {
      assert Fill("", words, width) == [""] + rest;
      assert forall l :: l in [""] + rest <==> l == "" || l in rest;
    }
  }

  // ---- no division into fitting lines is shorter ----

  /** How many lines `Fill` emits depends only on the length of the line in progress. */
  function LineCount(len: nat, words: seq<string>, width: int): nat
    decreases |words|
  {
    if words == [] then 1
    else if len + |words[0]| + 1 > width then 1 + LineCount(|words[0]|, words[1..], width)
    else LineCount(len + 1 + |words[0]|, words[1..], width)
  }

  lemma {:induction false} FillCounts(line: string, words: seq<string>, width: int)
    requires line != "" && NoEmptyWord(words)
    ensures |Fill(line, words, width)| == LineCount(|line|, words, width)
    decreases |words|
  {
    if words == [] {
    } else {
      if |line| + |words[0]| + 1 > width {
        FillCounts(words[0], words[1..], width);
      } else {
        FillCounts(line + [SPACE] + words[0], words[1..], width);
      }
    }
  }

  lemma {:induction false} ShorterStartIsNoWorse(a: nat, b: nat, words: seq<string>, width: int)
    requires a <= b
    ensures LineCount(a, words, width) <= LineCount(b, words, width) <= 1 + LineCount(a, words, width)
    decreases |words|
  {
    if words == [] {
    } else {
      var w, rest := |words[0]|, words[1..];
      if b + w + 1 <= width {
        ShorterStartIsNoWorse(a + 1 + w, b + 1 + w, rest, width);
      } else if a + w + 1 <= width {
        ShorterStartIsNoWorse(w, a + 1 + w, rest, width);
      }
    }
  }

  /** Words that all fit after the line in progress are taken without a break. */
  lemma {:induction false} TakesWhatFits(len: nat, group: seq<string>, rest: seq<string>, width: int)
    requires group != [] ==> len + 1 + |Join(group, SPACE)| <= width
    ensures LineCount(len, group + rest, width)
         == LineCount(if group == [] then len else len + 1 + |Join(group, SPACE)|, rest, width)
    decreases |group|
  {
    if group == [] {
      assert group + rest == rest;
    } else {
      assert (group + rest)[1..] == group[1..] + rest;
      if |group| > 1 {
        assert |Join(group, SPACE)| == |group[0]| + 1 + |Join(group[1..], SPACE)|;
      }
      TakesWhatFits(len + 1 + |group[0]|, group[1..], rest, width);
    }
  }

  function Flatten(groups: seq<seq<string>>): seq<string> {
    if groups == [] then [] else groups[0] + Flatten(groups[1..])
  }

  /** A division of the words into consecutive non-empty lines that fit. */
  ghost predicate IsDivision(groups: seq<seq<string>>, words: seq<string>, width: int) {
    && Flatten(groups) == words
    && forall i :: 0 <= i < |groups| ==> groups[i] != [] && |Join(groups[i], SPACE)| <= width
  }

  lemma {:induction false} GreedyBeatsDivision(groups: seq<seq<string>>, words: seq<string>, width: int)
    requires words != [] && NoEmptyWord(words) && IsDivision(groups, words, width)
    ensures LineCount(|words[0]|, words[1..], width) <= |groups|
    decreases |groups|
  {
    var g, rest := groups[0], Flatten(groups[1..]);
    assert words == g + rest && words[1..] == g[1..] + rest && rest == words[|g|..];
    if |g| > 1 {
      assert |Join(g, SPACE)| == |g[0]| + 1 + |Join(g[1..], SPACE)|;
    }
    TakesWhatFits(|g[0]|, g[1..], rest, width);
    if rest == [] {
    } else {
      var len := |Join(g, SPACE)|;
      assert LineCount(|words[0]|, words[1..], width) == LineCount(len, rest, width);
      if len + |rest[0]| + 1 <= width {
        ShorterStartIsNoWorse(|rest[0]|, len + 1 + |rest[0]|, rest[1..], width);
      }
      GreedyBeatsDivision(groups[1..], rest, width);
    }
  }

  /**
   * No division into consecutive fitting lines uses fewer lines than `Wrap`, except
   * that a first word as long as the width costs `Wrap` exactly its one empty line.
   */
  lemma WrapIsShortest(words: seq<string>, width: int, groups: seq<seq<string>>)
    requires words != [] && NoEmptyWord(words) && IsDivision(groups, words, width)
    ensures |Fill("", words, width)| <= |groups| + (if |words[0]| == width then 1 else 0)
  {
    FillCounts(words[0], words[1..], width);
    GreedyBeatsDivision(groups, words, width);
    assert |words[0]| <= width by {
      assert words[0] == groups[0][0];
    }
  }

  // ---- when the wrapped text is as short as any division ----

  /** The greedy lines as groups of words, continuing the group in progress. */
  function Greedy(group: seq<string>, words: seq<string>, width: int): seq<seq<string>>
    decreases |words|
  {
    if words == [] then [group]
    else if |Join(group, SPACE)| + |words[0]| + 1 > width then [group] + Greedy([words[0]], words[1..], width)
    else Greedy(group + [words[0]], words[1..], width)
  }

  lemma {:induction false} JoinedLength(group: seq<string>, word: string)
    requires group != []
    ensures |Join(group + [word], SPACE)| == |Join(group, SPACE)| + 1 + |word|
  {
    if |group| == 1 {
      assert (group + [word])[1..] == [word];
    } else {
      assert (group + [word])[1..] == group[1..] + [word];
      JoinedLength(group[1..], word);
    }
  }

  lemma OneMoreLine(group: seq<string>, groups: seq<seq<string>>, words: seq<string>, width: int)
    requires group != [] && |Join(group, SPACE)| <= width && IsDivision(groups, words, width)
    ensures IsDivision([group] + groups, group + words, width)
  {
    assert ([group] + groups)[1..] == groups;
  }

  lemma {:induction false} GreedyIsDivision(group: seq<string>, words: seq<string>, width: int)
    requires group != [] && |Join(group, SPACE)| <= width && AllFit(words, width)
    ensures IsDivision(Greedy(group, words, width), group + words, width)
    ensures |Greedy(group, words, width)| == LineCount(|Join(group, SPACE)|, words, width)
    decreases |words|
  {
    if words == [] {
      assert Greedy(group, words, width) == [group] + [];
      OneMoreLine(group, [], words, width);
    } else {
      var word, rest := words[0], words[1..];
      assert words == [word] + rest && AllFit(rest, width);
      if |Join(group, SPACE)| + |word| + 1 > width {
        GreedyIsDivision([word], rest, width);
        OneMoreLine(group, Greedy([word], rest, width), words, width);
      } else {
        JoinedLength(group, word);
        GreedyIsDivision(group + [word], rest, width);
        assert group + words == (group + [word]) + rest;
      }
    }
  }

  lemma {:induction false} WordFitsInGroup(group: seq<string>, k: nat)
    requires k < |group|
    ensures |group[k]| <= |Join(group, SPACE)|
  {
    if k == 0 {
    } else {
      WordFitsInGroup(group[1..], k - 1);
    }
  }

  /** Words that can be divided into fitting lines at all fit one by one. */
  lemma {:induction false} DividedWordsFit(groups: seq<seq<string>>, words: seq<string>, width: int)
    requires IsDivision(groups, words, width)
    ensures AllFit(words, width)
    decreases |groups|
  {
    if groups == [] {
    } else {
      var g, rest := groups[0], Flatten(groups[1..]);
      DividedWordsFit(groups[1..], rest, width);
      forall w | w in words ensures |w| <= width {
        if w in g {
          var k :| 0 <= k < |g| && g[k] == w;
          WordFitsInGroup(g, k);
        } else {
          assert w in rest;
        }
      }
    }
  }

  /**
   * No division into fitting lines is shorter than the wrapped text exactly when the first word
   * is shorter than the width, or some word does not fit and there is no division at all.
   */
  lemma ShortestExactlyWhen(words: seq<string>, width: int)
    requires words != [] && NoEmptyWord(words)
    ensures (forall groups :: IsDivision(groups, words, width) ==> |Fill("", words, width)| <= |groups|)
       <==> |words[0]| < width || !AllFit(words, width)
  {
    forall groups | IsDivision(groups, words, width) ensures AllFit(words, width) {
      DividedWordsFit(groups, words, width);
    }
    if AllFit(words, width) && |words[0]| >= width {
      var groups := Greedy([words[0]], words[1..], width);
      assert words == [words[0]] + words[1..];
      GreedyIsDivision([words[0]], words[1..], width);
      FillCounts(words[0], words[1..], width);
      assert |Fill("", words, width)| == 1 + |groups|;
    } else {
      forall groups | IsDivision(groups, words, width) ensures |Fill("", words, width)| <= |groups| {
        WrapIsShortest(words, width, groups);
      }
    }
  }
}
