/**
  The case-conversion helpers of src/frontend/src/utils/utils.ts:
  `toNormalCase`, `normalCaseToSnakeCase`, `toTitleCase` and `checkUpperWords`.
  Each is a split/map/join pipeline; the JavaScript expression `word[0]` on an
  empty word is `undefined`, and calling `toUpperCase` on it throws, so every
  input that would reach an empty first word is excluded by a precondition.
 */
module CaseConversion {
  import opened Text

  // ---------------------------------------------------------------------
  // toNormalCase and normalCaseToSnakeCase
  // ---------------------------------------------------------------------

  /**
    The `map((word, index) => ...)` callback shared by the normal-case helpers:
    the word at index 0 is capitalised, every other word is lowercased.
   */
  function CapitalizeFirst(words: seq<string>): (r: seq<string>)
    requires words != [] && words[0] != []
    ensures |r| == |words| && r[0] == Capitalize(words[0])
    ensures forall k :: 0 < k < |words| ==> r[k] == Lower(words[k])
    ensures LowerEach(r) == LowerEach(words)
  {
    assert forall k :: 0 < k < |words| ==> Lower(Lower(words[k])) == Lower(words[k]);
    [Capitalize(words[0])] + LowerEach(words[1..])
  }

  /** Capitalising the first piece and lowercasing the rest capitalises the joined text. */
  lemma CapitalizeFirstJoin(words: seq<string>, d: char)
    requires words != [] && words[0] != [] && Caseless(d)
    ensures Join(words, [d]) != []
    ensures Join(CapitalizeFirst(words), [d]) == Capitalize(Join(words, [d]))
  {
    var h, t, rest := words[0][0], words[0][1..], words[1..];
    var tailJoin := Join([t] + rest, [d]);
    assert words[0] == [h] + t;
    assert words == [words[0]] + rest;
    JoinConsHead(h, t, rest, [d]);
    CapitalizeCons(h, tailJoin);
    LowerJoinCons(t, rest, d);
    assert CapitalizeFirst(words) == [[UpperChar(h)] + Lower(t)] + LowerEach(rest);
    JoinConsHead(UpperChar(h), Lower(t), LowerEach(rest), [d]);
  }

  lemma CapitalizeCons(h: char, x: string)
    ensures Capitalize([h] + x) == [UpperChar(h)] + Lower(x)
  {
    assert ([h] + x)[1..] == x;
  }

  lemma LowerJoinCons(t: string, rest: seq<string>, d: char)
    requires Caseless(d)
    ensures Lower(Join([t] + rest, [d])) == Join([Lower(t)] + LowerEach(rest), [d])
  {
    assert Lower([d]) == [d];
    JoinLower([t] + rest, [d]);
    assert LowerEach([t] + rest) == [Lower(t)] + LowerEach(rest);
  }

  /** One split/map/join pass: replace the separator and capitalise the result. */
  lemma NormalPass(s: string, c: char, d: char)
    requires s != [] && s[0] != c && Caseless(d)
    ensures Split(s, c)[0] != []
    ensures Join(CapitalizeFirst(Split(s, c)), [d]) == Capitalize(Replace(s, c, d))
  {
    var parts := Split(s, c);
    SplitFirstPiece(s, c);
    JoinSplit(s, c, d);
    CapitalizeFirstJoin(parts, d);
  }

  /**
    `toNormalCase`: every `_` and `-` becomes a space, the first character is
    uppercased and every other character lowercased. The source throws on an
    empty input and on one that starts with `_` or `-`.
   */
  function ToNormalCase(str: string): (r: string)
    requires str != [] && str[0] != '_' && str[0] != '-'
    ensures |r| == |str| && r[0] == UpperChar(str[0])
    ensures forall i :: 0 < i < |str| ==>
      r[i] == if str[i] == '_' || str[i] == '-' then ' ' else LowerChar(str[i])
  {
    NormalPass(str, '_', ' ');
    var result := Join(CapitalizeFirst(Split(str, '_')), " ");
    NormalPass(result, '-', ' ');
    assert forall i :: 0 < i < |str| ==> result[i] == LowerChar(Replace(str, '_', ' ')[i]);
    Join(CapitalizeFirst(Split(result, '-')), " ")
  }

  /**
    `normalCaseToSnakeCase`: every space becomes `_`, the first character is
    uppercased and every other character lowercased. The source throws on an
    empty input and on one that starts with a space.
   */
  function NormalCaseToSnakeCase(str: string): (r: string)
    requires str != [] && str[0] != ' '
    ensures |r| == |str| && r[0] == UpperChar(str[0])
    ensures forall i :: 0 < i < |str| ==>
      r[i] == if str[i] == ' ' then '_' else LowerChar(str[i])
  {
    NormalPass(str, ' ', '_');
    Join(CapitalizeFirst(Split(str, ' ')), "_")
  }

  /** Applying toNormalCase to its own output changes nothing. */
  lemma ToNormalCaseIdempotent(str: string)
    requires str != [] && str[0] != '_' && str[0] != '-'
    ensures var r := ToNormalCase(str);
      r != [] && r[0] != '_' && r[0] != '-' && ToNormalCase(r) == r
  {
    var r := ToNormalCase(str);
    var rr := ToNormalCase(r);
    assert forall i :: 0 <= i < |r| ==> rr[i] == r[i];
  }

  /**
    A normal-case text (capitalised, without `_` or `-`) survives the trip
    through snake case and back.
   */
  lemma SnakeCaseRoundTrip(str: string)
    requires str != [] && str[0] != ' '
    requires '_' !in str && '-' !in str
    ensures var snake := NormalCaseToSnakeCase(str);
      snake[0] != '_' && snake[0] != '-' && ToNormalCase(snake) == Capitalize(str)
  {
    var snake := NormalCaseToSnakeCase(str);
    var back := ToNormalCase(snake);
    assert str[0] != '_' && str[0] != '-';
    forall i | 0 <= i < |str| ensures back[i] == Capitalize(str)[i] {
      if i > 0 {
        SnakeCharBack(str[i]);
      }
    }
  }

  /** One character through normalCaseToSnakeCase and back through toNormalCase. */
  lemma SnakeCharBack(x: char)
    requires x != '_' && x != '-'
    ensures var s := if x == ' ' then '_' else LowerChar(x);
      (if s == '_' || s == '-' then ' ' else LowerChar(s)) == LowerChar(x)
  {
  }

  // ---------------------------------------------------------------------
  // checkUpperWords
  // ---------------------------------------------------------------------

  /** `upperCaseWords`: the words written entirely in capitals. */
  const UpperCaseWords: seq<string> := ["llm", "uri"]

  predicate NoEmptyWord(words: seq<string>)
  {
    forall k :: 0 <= k < |words| ==> words[k] != []
  }

  /**
    The `map` callback of checkUpperWords: only the case of the word changes,
    and the word comes out as a title word.
   */
  function FormatWord(word: string): (r: string)
    requires word != []
    ensures Lower(r) == Lower(word)
    ensures IsTitleWord(r)
  {
    if Lower(word) in UpperCaseWords then
      assert Lower(Upper(word)) == Lower(word);
      assert Upper(Upper(word)) == Upper(word);
      Upper(word)
    else
      Capitalize(word)
  }

  function FormatEach(words: seq<string>): seq<string>
    requires NoEmptyWord(words)
  {
    seq(|words|, k requires 0 <= k < |words| => FormatWord(words[k]))
  }

  /**
    A word as checkUpperWords leaves it: written in capitals when it is one of
    `UpperCaseWords` in any case, and capitalised otherwise.
   */
  predicate IsTitleWord(w: string)
  {
    if Lower(w) in UpperCaseWords then w == Upper(w) else w != [] && w == Capitalize(w)
  }

  lemma CaselessIn(s: string, c: char)
    requires Caseless(c)
    ensures c in s <==> c in Lower(s)
  {
    if c in Lower(s) {
      var i :| 0 <= i < |s| && Lower(s)[i] == c;
      assert s[i] == c;
    }
    if c in s {
      var i :| 0 <= i < |s| && s[i] == c;
      assert Lower(s)[i] == c;
    }
  }

  lemma FormatEachFacts(words: seq<string>)
    requires NoEmptyWord(words)
    requires forall k :: 0 <= k < |words| ==> ' ' !in words[k]
    ensures LowerEach(FormatEach(words)) == LowerEach(words)
    ensures forall k :: 0 <= k < |words| ==> ' ' !in FormatEach(words)[k]
    ensures forall k :: 0 <= k < |words| ==> IsTitleWord(FormatEach(words)[k])
  {
    forall k | 0 <= k < |words|
      ensures Lower(FormatEach(words)[k]) == Lower(words[k])
      ensures ' ' !in FormatEach(words)[k]
      ensures IsTitleWord(FormatEach(words)[k])
    {
      CaselessIn(words[k], ' ');
      CaselessIn(FormatEach(words)[k], ' ');
    }
  }

  /**
    `checkUpperWords`: every space-separated word becomes `LLM`/`URI` in
    capitals when it is one of those, and is capitalised otherwise; only the
    case of letters changes. The source throws when a word is empty (an empty
    input, a leading or trailing space, or two spaces in a row).
   */
  function CheckUpperWords(str: string): (r: string)
    requires NoEmptyWord(Split(str, ' '))
    ensures Lower(r) == Lower(str)
    ensures forall w :: w in Split(r, ' ') ==> IsTitleWord(w)
  {
    var words := Split(str, ' ');
    FormatEachFacts(words);
    JoinLower(FormatEach(words), " ");
    JoinLower(words, " ");
    JoinSplit(str, ' ', ' ');
    assert Replace(str, ' ', ' ') == str;
    SplitJoin(FormatEach(words), ' ');
    Join(FormatEach(words), " ")
  }

  /** A title word is fixed by its letters: two title words equal up to case are equal. */
  lemma TitleWordUnique(w: string, v: string)
    requires IsTitleWord(w) && IsTitleWord(v) && Lower(w) == Lower(v)
    ensures w == v
  {
    assert |w| == |Lower(w)| == |v|;
    forall i | 0 <= i < |w| ensures UpperChar(w[i]) == UpperChar(v[i]) && LowerChar(w[i]) == LowerChar(v[i]) {
      assert Lower(w)[i] == Lower(v)[i];
      SameLowerSameUpper(w[i], v[i]);
    }
    if Lower(w) in UpperCaseWords {
      assert Upper(w) == Upper(v);
    } else {
      assert forall i :: 0 <= i < |w| ==> Capitalize(w)[i] == Capitalize(v)[i];
    }
  }

  /**
    The contract of checkUpperWords leaves no freedom: a text equal to the input
    up to case whose space-separated words are all title words is the result.
   */
  lemma CheckUpperWordsDetermined(str: string, r: string)
    requires NoEmptyWord(Split(str, ' '))
    requires Lower(r) == Lower(str)
    requires forall w :: w in Split(r, ' ') ==> IsTitleWord(w)
    ensures r == CheckUpperWords(str)
  {
    var c := CheckUpperWords(str);
    var rs, cs := Split(r, ' '), Split(c, ' ');
    SplitLower(r, ' ');
    SplitLower(c, ' ');
    assert |rs| == |LowerEach(rs)| == |LowerEach(cs)| == |cs|;
    forall k | 0 <= k < |rs| ensures rs[k] == cs[k] {
      assert LowerEach(rs)[k] == LowerEach(cs)[k];
      assert rs[k] in rs && cs[k] in cs;
      TitleWordUnique(rs[k], cs[k]);
    }
    assert rs == cs;
    JoinSplit(r, ' ', ' ');
    JoinSplit(c, ' ', ' ');
    assert Replace(r, ' ', ' ') == r;
    assert Replace(c, ' ', ' ') == c;
  }

  /** A lone word that reads `llm` or `uri` in any case comes out in capitals. */
  lemma CheckUpperWordsAcronym(word: string)
    requires ' ' !in word && Lower(word) in UpperCaseWords
    ensures NoEmptyWord(Split(word, ' '))
    ensures CheckUpperWords(word) == Upper(word)
  {
    SplitNoSeparator(word, ' ');
    assert word != [] by { assert |Lower(word)| == 3; }
    var u := Upper(word);
    assert ' ' !in u by {
      assert forall i :: 0 <= i < |u| ==> u[i] == UpperChar(word[i]);
    }
    SplitNoSeparator(u, ' ');
    assert Lower(u) == Lower(word);
    assert Upper(u) == u;
    CheckUpperWordsDetermined(word, u);
  }

  /** Whether the words of a text are non-empty depends only on its lowercase form. */
  lemma NoEmptyWordCase(x: string, y: string)
    requires Lower(x) == Lower(y) && NoEmptyWord(Split(x, ' '))
    ensures NoEmptyWord(Split(y, ' '))
  {
    SplitLower(x, ' ');
    SplitLower(y, ' ');
    var ys := Split(y, ' ');
    forall k | 0 <= k < |ys| ensures ys[k] != [] {
      assert |LowerEach(ys)[k]| == |ys[k]|;
    }
  }

  lemma SameLowerSameUpper(x: char, y: char)
    requires LowerChar(x) == LowerChar(y)
    ensures UpperChar(x) == UpperChar(y)
  {
  }

  lemma FormatWordCase(a: string, b: string)
    requires a != [] && Lower(a) == Lower(b)
    ensures b != [] && FormatWord(a) == FormatWord(b)
  {
    assert |a| == |Lower(a)| == |b|;
    forall i | 0 <= i < |a| ensures UpperChar(a[i]) == UpperChar(b[i]) {
      assert Lower(a)[i] == Lower(b)[i];
      SameLowerSameUpper(a[i], b[i]);
    }
    assert Upper(a) == Upper(b);
    assert Lower(a[1..]) == Lower(a)[1..] == Lower(b)[1..] == Lower(b[1..]);
    assert Capitalize(a) == Capitalize(b);
  }

  /** checkUpperWords ignores the case its input arrives in. */
  lemma CheckUpperWordsCase(x: string, y: string)
    requires Lower(x) == Lower(y) && NoEmptyWord(Split(x, ' '))
    ensures NoEmptyWord(Split(y, ' '))
    ensures CheckUpperWords(y) == CheckUpperWords(x)
  {
    NoEmptyWordCase(x, y);
    SplitLower(x, ' ');
    SplitLower(y, ' ');
    var xs, ys := Split(x, ' '), Split(y, ' ');
    assert |xs| == |LowerEach(xs)| == |ys|;
    forall k | 0 <= k < |xs| ensures FormatWord(xs[k]) == FormatWord(ys[k]) {
      assert LowerEach(xs)[k] == LowerEach(ys)[k];
      FormatWordCase(xs[k], ys[k]);
    }
    assert FormatEach(xs) == FormatEach(ys);
  }

  /** checkUpperWords works word by word, so it distributes over a space. */
  lemma CheckUpperWordsConcat(a: string, b: string)
    requires NoEmptyWord(Split(a, ' ')) && NoEmptyWord(Split(b, ' '))
    ensures NoEmptyWord(Split(a + " " + b, ' '))
    ensures CheckUpperWords(a + " " + b) == CheckUpperWords(a) + " " + CheckUpperWords(b)
  {
    var xs, ys := Split(a, ' '), Split(b, ' ');
    assert Split(a + " " + b, ' ') == xs + ys by {
      SplitConcat(a, b, ' ');
      assert a + " " + b == a + [' '] + b;
    }
    FormatEachAppend(xs, ys);
    JoinAppend(FormatEach(xs), FormatEach(ys), " ");
  }

  lemma FormatEachAppend(xs: seq<string>, ys: seq<string>)
    requires NoEmptyWord(xs) && NoEmptyWord(ys)
    ensures NoEmptyWord(xs + ys)
    ensures FormatEach(xs + ys) == FormatEach(xs) + FormatEach(ys)
  {
    assert forall k :: 0 <= k < |xs + ys| ==> (xs + ys)[k] == if k < |xs| then xs[k] else ys[k - |xs|];
  }

  lemma {:induction false} JoinCheckUpperWords(words: seq<string>, outs: seq<string>)
    requires words != [] && |outs| == |words|
    requires forall k :: 0 <= k < |words| ==>
      NoEmptyWord(Split(words[k], ' ')) && outs[k] == CheckUpperWords(words[k])
    ensures NoEmptyWord(Split(Join(words, " "), ' '))
    ensures Join(outs, " ") == CheckUpperWords(Join(words, " "))
  {
    if |words| > 1 {
      JoinCheckUpperWords(words[1..], outs[1..]);
      CheckUpperWordsConcat(words[0], Join(words[1..], " "));
    }
  }

  // ---------------------------------------------------------------------
  // toTitleCase
  // ---------------------------------------------------------------------

  /** The text with every `_` and `-` turned into a space. */
  function SpaceDelimiters(s: string): string
  {
    Replace(Replace(s, '_', ' '), '-', ' ')
  }

  /**
    The condition under which toTitleCase does not throw: every word between
    `_`, `-` and spaces is non-empty.
   */
  predicate DelimitedWordsNonEmpty(str: string)
  {
    NoEmptyWord(Split(SpaceDelimiters(str), ' '))
  }

  /** If the words around `c` are non-empty, so is every word of each `c`-piece. */
  lemma PiecesHaveWords(s: string, c: char)
    requires NoEmptyWord(Split(Replace(s, c, ' '), ' '))
    ensures forall k :: 0 <= k < |Split(s, c)| ==> NoEmptyWord(Split(Split(s, c)[k], ' '))
  {
    var pieces := Split(s, c);
    JoinSplit(s, c, ' ');
    SplitOfJoin(pieces, ' ');
    WordsOfPieces(pieces);
  }

  /** No word of SplitAll is empty, so no word of any one piece is. */
  lemma WordsOfPieces(pieces: seq<string>)
    requires NoEmptyWord(SplitAll(pieces, ' '))
    ensures forall k :: 0 <= k < |pieces| ==> NoEmptyWord(Split(pieces[k], ' '))
  {
    var words := SplitAll(pieces, ' ');
    assert [] !in words;
    forall k | 0 <= k < |pieces| ensures NoEmptyWord(Split(pieces[k], ' ')) {
      SplitAllElements(pieces, ' ', k);
      var ws := Split(pieces[k], ' ');
      forall j | 0 <= j < |ws| ensures ws[j] != [] {
        assert ws[j] in words;
      }
    }
  }

  lemma ReplaceAppend(a: string, b: string, c: char, d: char)
    ensures Replace(a + b, c, d) == Replace(a, c, d) + Replace(b, c, d)
  {
  }

  function ReplaceEach(words: seq<string>, c: char, d: char): seq<string>
  {
    seq(|words|, k requires 0 <= k < |words| => Replace(words[k], c, d))
  }

  lemma {:induction false} ReplaceJoin(words: seq<string>, c: char)
    requires c != ' '
    ensures Replace(Join(words, " "), c, ' ') == Join(ReplaceEach(words, c, ' '), " ")
  {
    var rs := ReplaceEach(words, c, ' ');
    if |words| > 1 {
      var rest := Join(words[1..], " ");
      ReplaceJoin(words[1..], c);
      assert rs[1..] == ReplaceEach(words[1..], c, ' ');
      assert Join(words, " ") == words[0] + (" " + rest);
      ReplaceAppend(words[0], " " + rest, c, ' ');
      ReplaceAppend(" ", rest, c, ' ');
      assert Replace(" ", c, ' ') == " ";
      assert Join(rs, " ") == rs[0] + (" " + Join(rs[1..], " "));
    } else if |words| == 0 {
      assert Replace([], c, ' ') == [];
    }
  }

  /** Turning more characters into spaces only splits words further. */
  lemma WordsSurviveReplace(x: string, c: char)
    requires c != ' ' && NoEmptyWord(Split(Replace(x, c, ' '), ' '))
    ensures NoEmptyWord(Split(x, ' '))
  {
    var words := Split(x, ' ');
    JoinSplit(x, ' ', ' ');
    assert Replace(x, ' ', ' ') == x;
    ReplaceJoin(words, c);
    var rs := ReplaceEach(words, c, ' ');
    SplitOfJoin(rs, ' ');
    forall k | 0 <= k < |words| ensures words[k] != [] {
      SplitAllElements(rs, ' ', k);
      assert Split(rs[k], ' ')[0] in SplitAll(rs, ' ');
      SplitFirstPiece(rs[k], ' ');
      assert |rs[k]| == |words[k]|;
    }
  }

  /**
    The `map((word, index) => ...)` callback of toTitleCase: checkUpperWords of
    the capitalised first word or of a lowercased later word; either way the
    result is checkUpperWords of the word itself.
   */
  function TitleSegment(word: string, first: bool): (r: string)
    requires NoEmptyWord(Split(word, ' '))
    ensures r == CheckUpperWords(word)
  {
    SplitFirstPiece(word, ' ');
    if first then
      LowerAppend([UpperChar(word[0])], Lower(word[1..]));
      LowerAppend([word[0]], word[1..]);
      assert word == [word[0]] + word[1..];
      CheckUpperWordsCase(word, Capitalize(word));
      CheckUpperWords(Capitalize(word))
    else
      CheckUpperWordsCase(word, Lower(word));
      CheckUpperWords(Lower(word))
  }

  /** One split/map/join pass of toTitleCase, at separator `c`. */
  function TitlePass(s: string, c: char): (r: string)
    requires NoEmptyWord(Split(Replace(s, c, ' '), ' '))
    ensures r == CheckUpperWords(Replace(s, c, ' '))
  {
    var words := Split(s, c);
    PiecesHaveWords(s, c);
    var outs := seq(|words|, k requires 0 <= k < |words| => TitleSegment(words[k], k == 0));
    JoinCheckUpperWords(words, outs);
    JoinSplit(s, c, ' ');
    Join(outs, " ")
  }

  /**
    `toTitleCase`: checkUpperWords of the text with `_` and `-` turned into
    spaces. The source throws when a word between `_`, `-` and spaces is empty.
   */
  function ToTitleCase(str: string): (r: string)
    requires DelimitedWordsNonEmpty(str)
    ensures r == CheckUpperWords(SpaceDelimiters(str))
    ensures r != [] && |r| == |str| && '_' !in r && '-' !in r
    ensures forall w :: w in Split(r, ' ') ==> IsTitleWord(w)
  {
    SplitFirstPiece(SpaceDelimiters(str), ' ');
    var spaced := Replace(str, '_', ' ');
    WordsSurviveReplace(spaced, '-');
    var result := TitlePass(str, '_');
    assert NoEmptyWord(Split(Replace(result, '-', ' '), ' '))
      && CheckUpperWords(Replace(result, '-', ' ')) == CheckUpperWords(SpaceDelimiters(str)) by {
      LowerReplace(result, '-', ' ');
      LowerReplace(spaced, '-', ' ');
      CheckUpperWordsCase(SpaceDelimiters(str), Replace(result, '-', ' '));
    }
    var r := TitlePass(result, '-');
    assert |r| == |str| && '_' !in r && '-' !in r by {
      assert |Lower(r)| == |SpaceDelimiters(str)|;
      CaselessIn(r, '_');
      CaselessIn(r, '-');
      CaselessIn(SpaceDelimiters(str), '_');
      CaselessIn(SpaceDelimiters(str), '-');
    }
    r
  }

  /** Applying toTitleCase to its own output changes nothing. */
  lemma ToTitleCaseIdempotent(str: string)
    requires DelimitedWordsNonEmpty(str)
    ensures var r := ToTitleCase(str);
      DelimitedWordsNonEmpty(r) && ToTitleCase(r) == r
  {
    var r := ToTitleCase(str);
    assert SpaceDelimiters(r) == r;
    CheckUpperWordsCase(SpaceDelimiters(str), r);
  }

  /** toTitleCase and toNormalCase produce the same text up to letter case. */
  lemma TitleAndNormalAgreeUpToCase(str: string)
    requires DelimitedWordsNonEmpty(str)
    ensures str != [] && str[0] != '_' && str[0] != '-'
    ensures Lower(ToTitleCase(str)) == Lower(ToNormalCase(str))
  {
    var words := Split(SpaceDelimiters(str), ' ');
    assert words[0] != [];
    assert str != [];
    assert SpaceDelimiters(str)[0] != ' ';
  }
}
