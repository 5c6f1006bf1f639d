/** The JavaScript string operations the profile helpers are built from, restricted
    to ASCII: `trim`, `split(/\s+/)`, `split(",")`, `join` and `toUpperCase` on one
    character. */
module Text {

  /** A character of the regular-expression class `\s` (and of what `trim` removes):
      space, tab, line feed, vertical tab, form feed, carriage return. */
  predicate IsSpace(c: char)
  {
    c == ' ' || '\t' <= c <= '\r'
  }

  predicate NoSpace(s: string)
  {
    forall i :: 0 <= i < |s| ==> !IsSpace(s[i])
  }

  predicate AllSpace(s: string)
  {
    forall i :: 0 <= i < |s| ==> IsSpace(s[i])
  }

  /** Neither end of s is whitespace. */
  predicate IsTrimmed(s: string)
  {
    s == [] || (!IsSpace(s[0]) && !IsSpace(s[|s| - 1]))
  }

  /** `toUpperCase` on one character: lower-case ASCII letters become upper case,
      every other character is kept. */
  function ToUpper(c: char): (r: char)
    ensures 'a' <= c <= 'z' ==> 'A' <= r <= 'Z' && r as int == c as int - 32
    ensures !('a' <= c <= 'z') ==> r == c
  {
    if 'a' <= c <= 'z' then (c as int - 32) as char else c
  }

  /** s without its leading whitespace. */
  function TrimStart(s: string): (r: string)
    ensures |r| <= |s|
    ensures r == [] || !IsSpace(r[0])
  {
    if s != [] && IsSpace(s[0]) then TrimStart(s[1..]) else s
  }

  /** s without its trailing whitespace. */
  function TrimEnd(s: string): (r: string)
    ensures |r| <= |s|
    ensures r == [] || !IsSpace(r[|r| - 1])
  {
    if s != [] && IsSpace(s[|s| - 1]) then TrimEnd(s[..|s| - 1]) else s
  }

  /** `s.trim()`. */
  function Trim(s: string): (r: string)
    ensures IsTrimmed(r)
  {
    var t := TrimStart(s);
    TrimEndPrefix(t);
    TrimEnd(t)
  }

  /** `s.split(/\s+/)`: the pieces between maximal runs of whitespace. A leading
      (trailing) run yields an empty first (last) piece, and "" yields [""]. */
  function SplitOnSpaces(s: string): (r: seq<string>)
    ensures |r| >= 1
    ensures forall k :: 0 <= k < |r| ==> NoSpace(r[k])
    decreases |s|
  {
    if s == [] then [[]]
    else if IsSpace(s[0]) then [[]] + SplitOnSpaces(TrimStart(s))
    else
      var rest := SplitOnSpaces(s[1..]);
      [[s[0]] + rest[0]] + rest[1..]
  }

  /** The length of the run of non-whitespace characters s starts with. */
  function WordLength(s: string): (n: nat)
    ensures n <= |s| && NoSpace(s[..n])
    ensures n < |s| ==> IsSpace(s[n])
  {
    if s == [] || IsSpace(s[0]) then 0 else 1 + WordLength(s[1..])
  }

  /** The words of s: its maximal runs of non-whitespace characters, in order. */
  function Words(s: string): seq<string>
    decreases |s|
  {
    var t := TrimStart(s);
    if t == [] then []
    else
      var n := WordLength(t);
      [t[..n]] + Words(t[n..])
  }

  /** `s.split(sep)` for a one-character separator: the pieces between occurrences
      of sep, "" yielding [""]. */
  function SplitOn(s: string, sep: char): (r: seq<string>)
    ensures |r| >= 1
    ensures forall k :: 0 <= k < |r| ==> sep !in r[k]
  {
    if s == [] then [[]]
    else
      var rest := SplitOn(s[1..], sep);
      if s[0] == sep then [[]] + rest else [[s[0]] + rest[0]] + rest[1..]
  }

  /** `xs.join(sep)`. */
  function JoinWith(xs: seq<string>, sep: string): string
  {
    if xs == [] then []
    else if |xs| == 1 then xs[0]
    else xs[0] + sep + JoinWith(xs[1..], sep)
  }

  // ---------------------------------------------------------------------------
  // Trimming
  // ---------------------------------------------------------------------------

  /** TrimStart keeps a suffix. */
  lemma {:induction false} TrimStartSuffix(s: string)
    ensures TrimStart(s) == s[|s| - |TrimStart(s)|..]
    decreases |s|
  {
    if s != [] && IsSpace(s[0]) {
      TrimStartSuffix(s[1..]);
      assert s[1..][|s| - 1 - |TrimStart(s)|..] == s[|s| - |TrimStart(s)|..];
    }
  }

  /** TrimEnd keeps a prefix. */
  lemma {:induction false} TrimEndPrefix(s: string)
    ensures TrimEnd(s) == s[..|TrimEnd(s)|]
    decreases |s|
  {
    if s != [] && IsSpace(s[|s| - 1]) {
      TrimEndPrefix(s[..|s| - 1]);
    }
  }

  /** TrimStart removes exactly the leading whitespace. */
  lemma {:induction false} TrimStartSpaces(s: string)
    ensures forall i :: 0 <= i < |s| - |TrimStart(s)| ==> IsSpace(s[i])
    decreases |s|
  {
    if s != [] && IsSpace(s[0]) {
      TrimStartSpaces(s[1..]);
      forall i | 0 < i < |s| - |TrimStart(s)| ensures IsSpace(s[i]) {
        assert s[i] == s[1..][i - 1];
      }
    }
  }

  /** TrimEnd removes exactly the trailing whitespace. */
  lemma {:induction false} TrimEndSpaces(s: string)
    ensures forall i :: |TrimEnd(s)| <= i < |s| ==> IsSpace(s[i])
    decreases |s|
  {
    if s != [] && IsSpace(s[|s| - 1]) {
      TrimEndSpaces(s[..|s| - 1]);
    }
  }

  /** Trimming leaves nothing exactly when the string is all whitespace, and leaves
      an already trimmed string as it is. */
  lemma TrimSpec(s: string)
    ensures Trim(s) == [] <==> AllSpace(s)
    ensures IsTrimmed(s) ==> Trim(s) == s
  {
    TrimStartSpaces(s);
    TrimStartSuffix(s);
    var t := TrimStart(s);
    TrimEndSpaces(t);
    assert t != [] ==> t[0] == s[|s| - |t|];
  }

  /** Trimming removes exactly the leading and the trailing whitespace: the result
      is a slice of s with nothing but whitespace before it and after it. */
  lemma TrimSlice(s: string)
    ensures exists i, j :: 0 <= i <= j <= |s| && Trim(s) == s[i..j] && AllSpace(s[..i]) && AllSpace(s[j..])
  {
    TrimStartSuffix(s);
    TrimStartSpaces(s);
    var t := TrimStart(s);
    TrimEndPrefix(t);
    TrimEndSpaces(t);
    var i := |s| - |t|;
    var j := i + |TrimEnd(t)|;
    assert t == s[i..];
    assert Trim(s) == s[i..j];
    forall k | 0 <= k < |s| - j ensures IsSpace(s[j..][k]) {
      assert s[j..][k] == t[|TrimEnd(t)| + k];
    }
  }

  lemma TrimStartOfTrimmed(s: string)
    requires s == [] || !IsSpace(s[0])
    ensures TrimStart(s) == s
  {
  }

  /** A trailing whitespace character does not change the leading trim, except when
      there is nothing else. */
  lemma {:induction false} TrimStartSnoc(s: string, c: char)
    requires IsSpace(c)
    ensures TrimStart(s + [c]) == if TrimStart(s) == [] then [] else TrimStart(s) + [c]
    decreases |s|
  {
    if s == [] {
      assert s + [c] == [c];
      assert TrimStart([c]) == TrimStart([]);
    } else if IsSpace(s[0]) {
      assert (s + [c])[0] == s[0];
      assert (s + [c])[1..] == s[1..] + [c];
      TrimStartSnoc(s[1..], c);
      assert TrimStart(s + [c]) == TrimStart(s[1..] + [c]);
      assert TrimStart(s) == TrimStart(s[1..]);
    } else {
      assert (s + [c])[0] == s[0];
      assert TrimStart(s + [c]) == s + [c];
      assert TrimStart(s) == s;
    }
  }

  // ---------------------------------------------------------------------------
  // Splitting on whitespace
  // ---------------------------------------------------------------------------

  /** The pieces `split(/\s+/)` makes after a word: none at the end of the string,
      otherwise the split of what follows the whitespace run. */
  function SplitAfterWord(rest: string): seq<string>
    decreases |rest|
  {
    if rest == [] then [] else SplitOnSpaces(TrimStart(rest))
  }

  /** The first piece of `split(/\s+/)` is the leading word; what follows is the split
      of the rest with its leading whitespace removed. */
  lemma {:induction false} SplitOnSpacesLeadingWord(s: string)
    requires s != []
    ensures SplitOnSpaces(s) == [s[..WordLength(s)]] + SplitAfterWord(s[WordLength(s)..])
    decreases |s|
  {
    if !IsSpace(s[0]) {
      var n := WordLength(s);
      var tail := s[1..];
      assert n == 1 + WordLength(tail);
      var rest := SplitOnSpaces(tail);
      assert SplitOnSpaces(s) == [[s[0]] + rest[0]] + rest[1..];
      if tail != [] {
        SplitOnSpacesLeadingWord(tail);
        assert tail[..n - 1] == s[1..n];
        assert tail[n - 1..] == s[n..];
        assert rest[0] == s[1..n];
        assert rest[1..] == SplitAfterWord(s[n..]);
        assert [s[0]] + s[1..n] == s[..n];
      } else {
        assert n == 1;
        assert rest == [[]];
        assert [s[0]] + rest[0] == [s[0]] && rest[1..] == [];
        assert s[..n] == [s[0]];
        assert SplitOnSpaces(s) == [s[..n]];
        assert s[n..] == [];
        assert SplitAfterWord(s[n..]) == [];
      }
    }
  }

  /** On a trimmed non-empty string `split(/\s+/)` yields exactly its words: the empty
      pieces it makes at a leading or trailing run cannot occur. */
  lemma {:induction false} SplitOnSpacesTrimmed(s: string)
    requires s != [] && IsTrimmed(s)
    ensures SplitOnSpaces(s) == Words(s)
    decreases |s|
  {
    SplitOnSpacesLeadingWord(s);
    TrimStartOfTrimmed(s);
    var n := WordLength(s);
    var rest := s[n..];
    if rest != [] {
      var t := TrimStart(rest);
      TrimStartSuffix(rest);
      TrimStartSpaces(rest);
      assert rest[|rest| - 1] == s[|s| - 1];
      assert t != [] && t[|t| - 1] == s[|s| - 1];
      TrimStartOfTrimmed(t);
      SplitOnSpacesTrimmed(t);
      assert Words(rest) == Words(t);
    }
  }

  // ---------------------------------------------------------------------------
  // Words
  // ---------------------------------------------------------------------------

  /** Every word is non-empty and free of whitespace, and a string has no word
      exactly when it is all whitespace. */
  lemma {:induction false} WordsShape(s: string)
    ensures forall k :: 0 <= k < |Words(s)| ==> Words(s)[k] != [] && NoSpace(Words(s)[k])
    ensures Words(s) == [] <==> AllSpace(s)
    decreases |s|
  {
    var t := TrimStart(s);
    TrimStartSuffix(s);
    TrimStartSpaces(s);
    if t != [] {
      var n := WordLength(t);
      WordsShape(t[n..]);
      assert !IsSpace(s[|s| - |t|]);
    }
  }

  /** The words of s do not depend on its leading whitespace. */
  lemma WordsTrimStart(s: string)
    ensures Words(TrimStart(s)) == Words(s)
  {
  }

  /** A trailing whitespace character adds no word. */
  lemma {:induction false} WordsSnocSpace(s: string, c: char)
    requires IsSpace(c)
    ensures Words(s + [c]) == Words(s)
    decreases |s|, 1
  {
    TrimStartSnoc(s, c);
    WordsTrimStart(s);
    WordsTrimStart(s + [c]);
    var t := TrimStart(s);
    if t != [] {
      WordsSnocWord(t, c);
    }
  }

  /** WordsSnocSpace for a string that starts with a word. */
  lemma {:induction false} WordsSnocWord(t: string, c: char)
    requires IsSpace(c) && t != [] && !IsSpace(t[0])
    ensures Words(t + [c]) == Words(t)
    decreases |t|, 0
  {
    var tc := t + [c];
    WordsUnfold(t);
    WordsUnfold(tc);
    var n := WordLength(t);
    WordLengthSnoc(t, c);
    var rest := t[n..];
    assert tc[..n] == t[..n];
    assert tc[n..] == rest + [c];
    assert Words(tc) == [t[..n]] + Words(rest + [c]);
    assert Words(t) == [t[..n]] + Words(rest);
    WordsSnocSpace(rest, c);
  }

  /** A string that starts with a word has that word first. */
  lemma WordsUnfold(s: string)
    requires s != [] && !IsSpace(s[0])
    ensures WordLength(s) >= 1
    ensures Words(s) == [s[..WordLength(s)]] + Words(s[WordLength(s)..])
  {
  }

  lemma {:induction false} WordLengthSnoc(s: string, c: char)
    requires IsSpace(c)
    ensures WordLength(s + [c]) == WordLength(s)
    decreases |s|
  {
    if s != [] && !IsSpace(s[0]) {
      assert (s + [c])[1..] == s[1..] + [c];
      WordLengthSnoc(s[1..], c);
    } else if s == [] {
      assert [] + [c] == [c];
    }
  }

  /** Trailing whitespace adds no word. */
  lemma {:induction false} WordsTrimEnd(s: string)
    ensures Words(TrimEnd(s)) == Words(s)
    decreases |s|
  {
    if s != [] && IsSpace(s[|s| - 1]) {
      var init := s[..|s| - 1];
      assert s == init + [s[|s| - 1]];
      WordsSnocSpace(init, s[|s| - 1]);
      WordsTrimEnd(init);
    }
  }

  /** Trimming keeps the words. */
  lemma WordsTrim(s: string)
    ensures Words(Trim(s)) == Words(s)
  {
    WordsTrimEnd(TrimStart(s));
    WordsTrimStart(s);
  }

  /** `s.trim().split(/\s+/)` on a string with a non-whitespace character is the list
      of its words. */
  lemma SplitTrimmedIsWords(s: string)
    requires !AllSpace(s)
    ensures SplitOnSpaces(Trim(s)) == Words(s)
  {
    TrimSpec(s);
    SplitOnSpacesTrimmed(Trim(s));
    WordsTrim(s);
  }

  /** A word followed by whitespace is the first word. */
  lemma WordsCons(w: string, c: char, s: string)
    requires w != [] && NoSpace(w) && IsSpace(c)
    ensures Words(w + [c] + s) == [w] + Words(s)
  {
    var t := w + [c] + s;
    assert t == w + ([c] + s);
    WordLengthPrefix(w, [c] + s);
    WordsUnfold(t);
    assert t[..|w|] == w;
    assert t[|w|..] == [c] + s;
    assert ([c] + s)[1..] == s;
    assert TrimStart([c] + s) == TrimStart(s);
    WordsTrimStart([c] + s);
    WordsTrimStart(s);
  }

  /** A non-empty string without whitespace is one word. */
  lemma WordsOfWord(w: string)
    requires w != [] && NoSpace(w)
    ensures Words(w) == [w]
  {
    TrimStartOfTrimmed(w);
    WordLengthPrefix(w, []);
    assert w + [] == w;
  }

  lemma {:induction false} WordLengthPrefix(w: string, s: string)
    requires NoSpace(w) && (s == [] || IsSpace(s[0]))
    ensures WordLength(w + s) == |w|
    decreases |w|
  {
    if w != [] {
      assert (w + s)[1..] == w[1..] + s;
      WordLengthPrefix(w[1..], s);
    } else {
      assert w + s == s;
    }
  }

  // ---------------------------------------------------------------------------
  // Splitting on a separator and joining
  // ---------------------------------------------------------------------------

  /** Splitting at a separator splits the two sides independently. */
  lemma {:induction false} SplitOnAround(a: string, sep: char, b: string)
    ensures SplitOn(a + [sep] + b, sep) == SplitOn(a, sep) + SplitOn(b, sep)
    decreases |a|
  {
    if a == [] {
      assert a + [sep] + b == [sep] + b;
      assert ([sep] + b)[1..] == b;
    } else {
      assert (a + [sep] + b)[0] == a[0];
      assert (a + [sep] + b)[1..] == a[1..] + [sep] + b;
      SplitOnAround(a[1..], sep, b);
    }
  }

  /** A string without the separator is a single piece. */
  lemma {:induction false} SplitOnNone(s: string, sep: char)
    requires sep !in s
    ensures SplitOn(s, sep) == [s]
    decreases |s|
  {
    if s != [] {
      assert s[1..] == [] || sep !in s[1..] by {
        forall i | 0 <= i < |s[1..]| ensures s[1..][i] != sep {
          assert s[1..][i] == s[i + 1];
        }
      }
      SplitOnNone(s[1..], sep);
      assert [s[0]] + s[1..] == s;
    }
  }

  /** Joining the pieces of a split with the separator gives back the string. */
  lemma {:induction false} JoinSplitOn(s: string, sep: char)
    ensures JoinWith(SplitOn(s, sep), [sep]) == s
    decreases |s|
  {
    if s != [] {
      var rest := SplitOn(s[1..], sep);
      JoinSplitOn(s[1..], sep);
      if s[0] == sep {
        assert SplitOn(s, sep)[1..] == rest;
        assert s == [sep] + s[1..];
      } else {
        var pieces := [[s[0]] + rest[0]] + rest[1..];
        if |rest| == 1 {
          assert JoinWith(rest, [sep]) == rest[0];
          assert s == [s[0]] + s[1..];
        } else {
          assert pieces[1..] == rest[1..];
          assert JoinWith(rest, [sep]) == rest[0] + [sep] + JoinWith(rest[1..], [sep]);
          assert s == [s[0]] + s[1..];
        }
      }
    }
  }
}
