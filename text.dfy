/**
  The JavaScript string primitives the helpers are built from, restricted to
  ASCII case mapping: `toUpperCase`/`toLowerCase`, `split` on a one-character
  separator, `join`, and the "capitalise a word" idiom
  `word[0].toUpperCase() + word.slice(1).toLowerCase()`.
 */
module Text {

  /** `toUpperCase` on one character (ASCII letters only). */
  function UpperChar(c: char): char
  {
    if 'a' <= c <= 'z' then (c as int - 32) as char else c
  }

  /** `toLowerCase` on one character (ASCII letters only). */
  function LowerChar(c: char): char
  {
    if 'A' <= c <= 'Z' then (c as int + 32) as char else c
  }

  /** A character that case mapping leaves alone and never produces. */
  predicate Caseless(c: char)
  {
    !('a' <= c <= 'z') && !('A' <= c <= 'Z')
  }

  function Upper(s: string): string
  {
    seq(|s|, i requires 0 <= i < |s| => UpperChar(s[i]))
  }

  function Lower(s: string): string
  {
    seq(|s|, i requires 0 <= i < |s| => LowerChar(s[i]))
  }

  /**
    `word[0].toUpperCase() + word.slice(1).toLowerCase()`; on "" the word has no
    `word[0]`, and calling `toUpperCase` on the `undefined` it gives throws.
    The word keeps its length and its letters; only their case changes.
   */
  function Capitalize(word: string): (r: string)
    requires word != []
    ensures |r| == |word| && r[0] == UpperChar(word[0])
    ensures forall i :: 0 < i < |word| ==> r[i] == LowerChar(word[i])
    ensures Lower(r) == Lower(word)
  {
    [UpperChar(word[0])] + Lower(word[1..])
  }

  /** Every occurrence of `c` replaced by `d`. */
  function Replace(s: string, c: char, d: char): string
  {
    seq(|s|, i requires 0 <= i < |s| => if s[i] == c then d else s[i])
  }

  function LowerEach(words: seq<string>): seq<string>
  {
    seq(|words|, k requires 0 <= k < |words| => Lower(words[k]))
  }

  /**
    `s.split(c)` for a one-character separator: the maximal runs between
    separators, in order, including the empty ones; `"".split(c)` is `[""]`.
   */
  function Split(s: string, c: char): (parts: seq<string>)
    ensures |parts| >= 1
    ensures forall k :: 0 <= k < |parts| ==> c !in parts[k]
  {
    if s == [] then [[]]
    else
      var rest := Split(s[1..], c);
      if s[0] == c then [[]] + rest
      else [[s[0]] + rest[0]] + rest[1..]
  }

  /** `parts.join(sep)`. */
  function Join(parts: seq<string>, sep: string): string
  {
    if |parts| == 0 then []
    else if |parts| == 1 then parts[0]
    else parts[0] + sep + Join(parts[1..], sep)
  }

  /** The concatenation of the splits of every element of `words`. */
  function SplitAll(words: seq<string>, c: char): seq<string>
  {
    if words == [] then [] else Split(words[0], c) + SplitAll(words[1..], c)
  }

  // ---------------------------------------------------------------------
  // Split and Join
  // ---------------------------------------------------------------------

  lemma {:induction false} SplitNoSeparator(s: string, c: char)
    requires c !in s
    ensures Split(s, c) == [s]
  {
    if s != [] {
      assert s[0] != c && c !in s[1..];
      SplitNoSeparator(s[1..], c);
      assert [s[0]] + s[1..] == s;
    }
  }

  /** Splitting at a separator splits each side independently. */
  lemma {:induction false} SplitConcat(a: string, b: string, c: char)
    ensures Split(a + [c] + b, c) == Split(a, c) + Split(b, c)
  {
    if a == [] {
      assert a + [c] + b == [c] + b;
      SplitCons(c, b, c);
    } else {
      SplitConcat(a[1..], b, c);
      SplitConcatStep(a, b, c);
    }
  }

  /** The inductive step of SplitConcat: put the first character of `a` back. */
  lemma SplitConcatStep(a: string, b: string, c: char)
    requires a != []
    requires Split(a[1..] + [c] + b, c) == Split(a[1..], c) + Split(b, c)
    ensures Split(a + [c] + b, c) == Split(a, c) + Split(b, c)
  {
    var t := a[1..] + [c] + b;
    assert a + [c] + b == [a[0]] + t;
    assert a == [a[0]] + a[1..];
    ConsConcat(a[0], a[1..], Split(b, c), c);
  }

  /** Splitting `[ch] + rest` for a `rest` whose split is `ra + rb`. */
  lemma ConsConcat(ch: char, rest: string, rb: seq<string>, c: char)
    ensures var ra := Split(rest, c);
      Split([ch] + rest, c) + rb ==
        if ch == c then [[]] + (ra + rb) else [[ch] + (ra + rb)[0]] + (ra + rb)[1..]
  {
    var ra := Split(rest, c);
    SplitCons(ch, rest, c);
    if ch != c {
      ConcatTail(ra, rb);
      ConcatAssoc([[ch] + ra[0]], ra[1..], rb);
    } else {
      ConcatAssoc([[]], ra, rb);
    }
  }

  lemma ConcatTail<T>(x: seq<T>, y: seq<T>)
    requires x != []
    ensures (x + y)[0] == x[0] && (x + y)[1..] == x[1..] + y
  {
  }

  lemma ConcatAssoc<T>(x: seq<T>, y: seq<T>, z: seq<T>)
    ensures x + (y + z) == (x + y) + z
  {
  }

  /** Split unfolded on a text given by its first character. */
  lemma SplitCons(ch: char, rest: string, c: char)
    ensures Split([ch] + rest, c) ==
      if ch == c then [[]] + Split(rest, c) else [[ch] + Split(rest, c)[0]] + Split(rest, c)[1..]
  {
    assert ([ch] + rest)[0] == ch && ([ch] + rest)[1..] == rest;
  }

  lemma {:induction false} JoinConsHead(x: char, w: string, rest: seq<string>, sep: string)
    ensures Join([[x] + w] + rest, sep) == [x] + Join([w] + rest, sep)
  {
    assert ([[x] + w] + rest)[1..] == rest;
    assert ([w] + rest)[1..] == rest;
  }

  lemma {:induction false} JoinAppend(xs: seq<string>, ys: seq<string>, sep: string)
    requires xs != [] && ys != []
    ensures Join(xs + ys, sep) == Join(xs, sep) + sep + Join(ys, sep)
  {
    if |xs| == 1 {
      assert (xs + ys)[1..] == ys;
    } else {
      assert (xs + ys)[1..] == xs[1..] + ys;
      JoinAppend(xs[1..], ys, sep);
    }
  }

  /** Joining the pieces of a split with `d` puts `d` where every `c` was. */
  lemma {:induction false} JoinSplit(s: string, c: char, d: char)
    ensures Join(Split(s, c), [d]) == Replace(s, c, d)
  {
    if s != [] {
      var rest := Split(s[1..], c);
      JoinSplit(s[1..], c, d);
      if s[0] == c {
        assert ([[]] + rest)[1..] == rest;
      } else {
        JoinConsHead(s[0], rest[0], rest[1..], [d]);
        assert [rest[0]] + rest[1..] == rest;
      }
      assert Replace(s, c, d) == [if s[0] == c then d else s[0]] + Replace(s[1..], c, d);
    }
  }

  /** Splitting a joined sequence splits every piece. */
  lemma {:induction false} SplitOfJoin(words: seq<string>, c: char)
    requires words != []
    ensures Split(Join(words, [c]), c) == SplitAll(words, c)
  {
    if |words| == 1 {
      assert words[1..] == [];
    } else {
      SplitConcat(words[0], Join(words[1..], [c]), c);
      SplitOfJoin(words[1..], c);
    }
  }

  lemma {:induction false} SplitAllNoSeparator(words: seq<string>, c: char)
    requires forall k :: 0 <= k < |words| ==> c !in words[k]
    ensures SplitAll(words, c) == words
  {
    if words != [] {
      SplitNoSeparator(words[0], c);
      SplitAllNoSeparator(words[1..], c);
    }
  }

  /** The first piece is empty exactly when the text is empty or starts with the separator. */
  lemma SplitFirstPiece(s: string, c: char)
    ensures Split(s, c)[0] == [] <==> s == [] || s[0] == c
    ensures s != [] && s[0] != c ==> Split(s, c)[0][0] == s[0]
  {
  }

  /** A text splits into a single piece exactly when it holds no separator. */
  lemma SplitSinglePiece(s: string, c: char)
    ensures |Split(s, c)| == 1 <==> c !in s
  {
    if c !in s {
      SplitNoSeparator(s, c);
    } else {
      var i :| 0 <= i < |s| && s[i] == c;
      assert s == s[..i] + [c] + s[i + 1..];
      SplitConcat(s[..i], s[i + 1..], c);
    }
  }

  /** Split is a left inverse of Join when no piece holds the separator. */
  lemma SplitJoin(words: seq<string>, c: char)
    requires words != []
    requires forall k :: 0 <= k < |words| ==> c !in words[k]
    ensures Split(Join(words, [c]), c) == words
  {
    SplitOfJoin(words, c);
    SplitAllNoSeparator(words, c);
  }

  /** Every element of SplitAll(words) is an element of the split of one word. */
  lemma {:induction false} SplitAllElements(words: seq<string>, c: char, k: nat)
    requires k < |words|
    ensures forall j :: 0 <= j < |Split(words[k], c)| ==> Split(words[k], c)[j] in SplitAll(words, c)
  {
    if k > 0 {
      SplitAllElements(words[1..], c, k - 1);
    }
  }

  // ---------------------------------------------------------------------
  // Case mapping
  // ---------------------------------------------------------------------

  lemma LowerAppend(a: string, b: string)
    ensures Lower(a + b) == Lower(a) + Lower(b)
  {
    assert forall i :: 0 <= i < |a + b| ==> Lower(a + b)[i] == (Lower(a) + Lower(b))[i];
  }

  /** Lowercasing commutes with splitting at a caseless separator. */
  lemma {:induction false} SplitLower(s: string, c: char)
    requires Caseless(c)
    ensures Split(Lower(s), c) == LowerEach(Split(s, c))
  {
    if s != [] {
      var rest := Split(s[1..], c);
      var lrest := Split(Lower(s[1..]), c);
      SplitLower(s[1..], c);
      assert Lower(s)[0] == LowerChar(s[0]) && Lower(s)[1..] == Lower(s[1..]);
      if s[0] != c {
        assert Split(Lower(s), c) == [[LowerChar(s[0])] + lrest[0]] + lrest[1..];
        assert LowerEach(Split(s, c)) == [[LowerChar(s[0])] + Lower(rest[0])] + LowerEach(rest[1..]) by {
          assert Split(s, c) == [[s[0]] + rest[0]] + rest[1..];
          LowerEachCons([s[0]] + rest[0], rest[1..]);
          LowerAppend([s[0]], rest[0]);
          assert Lower([s[0]]) == [LowerChar(s[0])];
        }
        assert rest == [rest[0]] + rest[1..];
        LowerEachCons(rest[0], rest[1..]);
      } else {
        assert Split(Lower(s), c) == [[]] + lrest;
        LowerEachCons([], rest);
        assert Lower([]) == [];
      }
    }
  }

  lemma LowerEachCons(w: string, ws: seq<string>)
    ensures LowerEach([w] + ws) == [Lower(w)] + LowerEach(ws)
  {
  }

  /** Lowercasing commutes with joining on a separator that has no case. */
  lemma {:induction false} JoinLower(words: seq<string>, sep: string)
    requires Lower(sep) == sep
    ensures Lower(Join(words, sep)) == Join(LowerEach(words), sep)
  {
    if |words| > 1 {
      JoinLower(words[1..], sep);
      LowerAppend(words[0], sep);
      LowerAppend(words[0] + sep, Join(words[1..], sep));
      assert LowerEach(words)[1..] == LowerEach(words[1..]);
    }
  }

  lemma LowerReplace(s: string, c: char, d: char)
    requires Caseless(c) && Caseless(d)
    ensures Lower(Replace(s, c, d)) == Replace(Lower(s), c, d)
  {
  }
}
