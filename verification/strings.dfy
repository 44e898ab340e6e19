/**
 * The two string operations the authentication stage relies on:
 * splitting a string on every occurrence of a separator character (the
 * behaviour of `string.Split(" ")` with a single-space separator, which
 * keeps empty pieces), and taking the piece after the last separator.
 */
module Strings {

  /** Splits `s` at every occurrence of `sep`; empty pieces are kept. */
  function Split(s: string, sep: char): (parts: seq<string>)
    ensures |parts| >= 1
    ensures forall i :: 0 <= i < |parts| ==> sep !in parts[i]
    decreases |s|
  {
    if |s| == 0 then [""]
    else
      var rest := Split(s[1..], sep);
      if s[0] == sep then [""] + rest
      else [[s[0]] + rest[0]] + rest[1..]
  }

  /** Glues pieces back together with one `sep` between neighbours. */
  function Join(parts: seq<string>, sep: char): string
    requires |parts| >= 1
    decreases |parts|
  {
    if |parts| == 1 then parts[0] else parts[0] + [sep] + Join(parts[1..], sep)
  }

  /** The last element of a non-empty sequence (LINQ `Last()`). */
  function Last<T>(xs: seq<T>): T
    requires |xs| >= 1
  {
    xs[|xs| - 1]
  }

  /**
   * The longest suffix of `s` that contains no `sep`: everything after the
   * last separator, or all of `s` when it has none.
   */
  function LastSegment(s: string, sep: char): (t: string)
    ensures sep !in t
    ensures |t| <= |s| && t == s[|s| - |t|..]
    ensures |t| < |s| ==> s[|s| - |t| - 1] == sep
    decreases |s|
  {
    if |s| == 0 || s[|s| - 1] == sep then ""
    else
      var init := s[..|s| - 1];
      assert s == init + [s[|s| - 1]];
      LastSegment(init, sep) + [s[|s| - 1]]
  }

  /** `Split` loses nothing: joining its pieces gives back the input. */
  lemma {:induction false} JoinSplit(s: string, sep: char)
    ensures Join(Split(s, sep), sep) == s
    decreases |s|
  {
    if |s| > 0 {
      var rest := Split(s[1..], sep);
      JoinSplit(s[1..], sep);
      if s[0] == sep {
        assert Split(s, sep)[1..] == rest;
      } else {
        var parts := Split(s, sep);
        assert parts == [[s[0]] + rest[0]] + rest[1..];
        if |rest| == 1 {
          assert Join(parts, sep) == [s[0]] + rest[0];
        } else {
          assert parts[1..] == rest[1..];
          assert Join(parts, sep) == [s[0]] + rest[0] + [sep] + Join(rest[1..], sep);
        }
        assert s == [s[0]] + s[1..];
      }
    }
  }

  /** Joining separator-free pieces and splitting again gives the pieces back. */
  lemma {:induction false} SplitJoin(parts: seq<string>, sep: char)
    requires |parts| >= 1
    requires forall i :: 0 <= i < |parts| ==> sep !in parts[i]
    ensures Split(Join(parts, sep), sep) == parts
    decreases |parts|, |parts[0]|
  {
    if |parts[0]| > 0 {
      var p := parts[0];
      var shorter := parts[0 := p[1..]];
      SplitJoin(shorter, sep);
      var j := Join(parts, sep);
      assert j == [p[0]] + Join(shorter, sep) by {
        if |parts| == 1 {
        } else {
          assert shorter[1..] == parts[1..];
        }
      }
      assert j[0] == p[0] && j[1..] == Join(shorter, sep);
      assert p[0] != sep by { assert p[0] in parts[0]; }
      assert [p[0]] + p[1..] == p;
    } else if |parts| > 1 {
      SplitJoin(parts[1..], sep);
      var j := Join(parts, sep);
      assert j == [sep] + Join(parts[1..], sep);
      assert j[1..] == Join(parts[1..], sep);
      assert parts == [""] + parts[1..];
    }
  }

  /** A non-trivial join ends with its last piece, preceded by a separator. */
  lemma {:induction false} JoinSnoc(parts: seq<string>, sep: char)
    requires |parts| >= 2
    ensures Join(parts, sep) == Join(parts[..|parts| - 1], sep) + [sep] + Last(parts)
    decreases |parts|
  {
    if |parts| > 2 {
      JoinSnoc(parts[1..], sep);
      assert parts[1..][..|parts| - 2] == parts[..|parts| - 1][1..];
    }
  }

  /** The three properties in `LastSegment`'s contract pin the result down. */
  lemma LastSegmentUnique(s: string, sep: char, t: string)
    requires sep !in t
    requires |t| <= |s| && t == s[|s| - |t|..]
    requires |t| < |s| ==> s[|s| - |t| - 1] == sep
    ensures t == LastSegment(s, sep)
  {
  }

  /** The last piece of `Split` is exactly the text after the last separator. */
  lemma LastOfSplit(s: string, sep: char)
    ensures Last(Split(s, sep)) == LastSegment(s, sep)
  {
    var parts := Split(s, sep);
    JoinSplit(s, sep);
    var t := Last(parts);
    assert sep !in t;
    if |parts| >= 2 {
      JoinSnoc(parts, sep);
      var prefix := Join(parts[..|parts| - 1], sep) + [sep];
      assert s == prefix + t;
      assert s[|s| - |t|..] == t;
      assert s[|s| - |t| - 1] == sep;
    } else {
      assert s == t;
    }
    LastSegmentUnique(s, sep, t);
  }

  /**
   * When the wanted word has no separator in it, the piece after the last
   * separator equals it exactly when `s` is the word itself or ends with a
   * separator followed by the word.
   */
  lemma LastSegmentIsWord(s: string, sep: char, word: string)
    requires sep !in word
    ensures LastSegment(s, sep) == word <==>
              s == word || (|s| > |word| && s[|s| - |word| - 1..] == [sep] + word)
  {
    var u := LastSegment(s, sep);
    if s == word {
      LastSegmentUnique(s, sep, word);
    } else if |s| > |word| && s[|s| - |word| - 1..] == [sep] + word {
      assert s[|s| - |word| - 1] == sep;
      assert s[|s| - |word|..] == word;
      LastSegmentUnique(s, sep, word);
    }
    if u == word && s != word {
      assert |u| < |s|;
      assert s[|s| - |word| - 1..] == [s[|s| - |word| - 1]] + s[|s| - |word|..];
    }
  }
}
