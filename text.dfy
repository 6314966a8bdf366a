/** String operations the programs use from Python's `str`: `isdigit`, `join`,
    `split()` on whitespace and `lower`, plus the splitting that reads a joined
    string back, which states what `join` preserves. */
module Text {

  /** An ASCII decimal digit. */
  predicate IsDigit(c: char)
  {
    '0' <= c <= '9'
  }

  /** `str.isdigit` on ASCII text: at least one character, and all are digits. */
  predicate IsDigits(s: string)
  {
    |s| > 0 && forall i :: 0 <= i < |s| ==> IsDigit(s[i])
  }

  // ---------------------------------------------------------------------------
  // join, and reading a joined string back

  /** `sep.join(parts)`. */
  function Join(parts: seq<string>, sep: string): string
    decreases |parts|
  {
    if |parts| == 0 then ""
    else if |parts| == 1 then parts[0]
    else parts[0] + sep + Join(parts[1..], sep)
  }

  /** `sep` occurs in `s` starting at position `j`. */
  predicate MatchAt(s: string, sep: string, j: nat)
  {
    j + |sep| <= |s| && s[j..j + |sep|] == sep
  }

  /** Position of the first occurrence of `sep` in `s`, or `|s|` when there is none. */
  function IndexOfSub(s: string, sep: string): (k: nat)
    requires sep != []
    ensures k <= |s|
    ensures k < |s| ==> MatchAt(s, sep, k)
    ensures forall j :: 0 <= j < k ==> !MatchAt(s, sep, j)
    ensures k == |s| ==> forall j :: 0 <= j <= |s| ==> !MatchAt(s, sep, j)
    decreases |s|
  {
    if |s| < |sep| then |s|
    else if s[..|sep|] == sep then 0
    else
      var k' := IndexOfSub(s[1..], sep);
      assert forall j :: 1 <= j <= |s| ==> (MatchAt(s, sep, j) <==> MatchAt(s[1..], sep, j - 1)) by {
        forall j | 1 <= j <= |s| ensures MatchAt(s, sep, j) <==> MatchAt(s[1..], sep, j - 1) {
          if j + |sep| <= |s| {
            assert s[1..][j - 1..j - 1 + |sep|] == s[j..j + |sep|];
          }
        }
      }
      1 + k'
  }

  /** The pieces of `s` between occurrences of `sep`, left to right; the empty
      string has no pieces. */
  function SplitOn(s: string, sep: string): seq<string>
    requires sep != []
    decreases |s|
  {
    if s == [] then []
    else
      var k := IndexOfSub(s, sep);
      if k == |s| then [s] else [s[..k]] + SplitOn(s[k + |sep|..], sep)
  }

  /** A piece that can stand between separators: non-empty and without the
      separator's first character. */
  predicate Separable(parts: seq<string>, sep: string)
    requires sep != []
  {
    forall i :: 0 <= i < |parts| ==> parts[i] != [] && sep[0] !in parts[i]
  }

  /** The first occurrence of the separator in a joined string is the one right
      after the first piece. */
  lemma FirstSeparator(parts: seq<string>, sep: string)
    requires sep != [] && |parts| > 0
    requires Separable(parts, sep)
    ensures IndexOfSub(Join(parts, sep), sep) == |parts[0]|
    ensures |parts| > 1 ==> Join(parts, sep)[..|parts[0]|] == parts[0]
    ensures |parts| > 1 ==> Join(parts, sep)[|parts[0]| + |sep|..] == Join(parts[1..], sep)
  {
    var p := parts[0];
    var s := Join(parts, sep);
    forall j | 0 <= j < |p| ensures !MatchAt(s, sep, j) {
      assert s[j] == p[j] && p[j] != sep[0];
      if j + |sep| <= |s| {
        assert s[j..j + |sep|][0] == s[j];
      }
    }
    if |parts| > 1 {
      var rest := Join(parts[1..], sep);
      assert s == p + sep + rest;
      assert s[|p|..|p| + |sep|] == sep;
      assert MatchAt(s, sep, |p|);
    }
  }

  /** Joining loses nothing: when no piece is empty or contains the separator's
      first character, splitting the joined string gives back the pieces, in order. */
  lemma {:induction false} SplitJoin(parts: seq<string>, sep: string)
    requires sep != []
    requires Separable(parts, sep)
    ensures SplitOn(Join(parts, sep), sep) == parts
    decreases |parts|
  {
    if |parts| > 0 {
      var s := Join(parts, sep);
      FirstSeparator(parts, sep);
      if |parts| > 1 {
        SplitJoin(parts[1..], sep);
        assert SplitOn(s, sep) == [s[..|parts[0]|]] + SplitOn(s[|parts[0]| + |sep|..], sep);
      }
    }
  }

  // ---------------------------------------------------------------------------
  // split() on whitespace

  /** The characters for which Python's `str.isspace` holds; `str.split()` with no
      argument splits on runs of them. */
  predicate IsSpace(c: char)
  {
    c == ' ' || c == '\t' || c == '\n' || c == '\r' || c == '\U{000B}' || c == '\U{000C}'
    || ('\U{001C}' <= c <= '\U{001F}') || c == '\U{0085}' || c == '\U{00A0}' || c == '\U{1680}'
    || ('\U{2000}' <= c <= '\U{200A}') || c == '\U{2028}' || c == '\U{2029}' || c == '\U{202F}'
    || c == '\U{205F}' || c == '\U{3000}'
  }

  /** A token of `split()`: non-empty and free of whitespace. */
  predicate IsWord(w: string)
  {
    w != [] && forall i :: 0 <= i < |w| ==> !IsSpace(w[i])
  }

  /** Length of the leading run of non-whitespace characters of `s`. */
  function WordEnd(s: string): (k: nat)
    ensures k <= |s|
    ensures forall j :: 0 <= j < k ==> !IsSpace(s[j])
    ensures k < |s| ==> IsSpace(s[k])
    decreases |s|
  {
    if s == [] || IsSpace(s[0]) then 0 else 1 + WordEnd(s[1..])
  }

  /** `s.split()`: the maximal runs of non-whitespace characters, in order. */
  function Words(s: string): (r: seq<string>)
    ensures forall i :: 0 <= i < |r| ==> IsWord(r[i])
    decreases |s|
  {
    if s == [] then []
    else if IsSpace(s[0]) then Words(s[1..])
    else
      var k := WordEnd(s);
      [s[..k]] + Words(s[k..])
  }

  /** `split()` finds no token exactly when the string is empty or all whitespace. */
  lemma {:induction false} WordsEmpty(s: string)
    ensures Words(s) == [] <==> forall i :: 0 <= i < |s| ==> IsSpace(s[i])
    decreases |s|
  {
    if s != [] {
      WordsEmpty(s[1..]);
      if IsSpace(s[0]) {
        assert forall i :: 0 < i < |s| ==> s[i] == s[1..][i - 1];
      }
    }
  }

  /** The characters of `s` that are not whitespace, in order. */
  function NonSpace(s: string): string
    decreases |s|
  {
    if s == [] then ""
    else if IsSpace(s[0]) then NonSpace(s[1..])
    else [s[0]] + NonSpace(s[1..])
  }

  /** All the tokens glued together. */
  function Concat(ws: seq<string>): string
    decreases |ws|
  {
    if ws == [] then "" else ws[0] + Concat(ws[1..])
  }

  /** A string without whitespace keeps all its characters in `NonSpace`. */
  lemma {:induction false} NonSpaceOfWord(w: string)
    requires forall i :: 0 <= i < |w| ==> !IsSpace(w[i])
    ensures NonSpace(w) == w
    decreases |w|
  {
    if w != [] {
      NonSpaceOfWord(w[1..]);
    }
  }

  /** `NonSpace` distributes over concatenation. */
  lemma {:induction false} NonSpaceAppend(a: string, b: string)
    ensures NonSpace(a + b) == NonSpace(a) + NonSpace(b)
    decreases |a|
  {
    if a == [] {
      assert a + b == b;
    } else {
      assert (a + b)[0] == a[0] && (a + b)[1..] == a[1..] + b;
      NonSpaceAppend(a[1..], b);
      if !IsSpace(a[0]) {
        assert NonSpace(a + b) == [a[0]] + (NonSpace(a[1..]) + NonSpace(b));
      }
    }
  }

  /** `split()` drops the whitespace and nothing else: its tokens, glued
      together, are the non-whitespace characters of the input in order. */
  lemma {:induction false} WordsKeepText(s: string)
    ensures Concat(Words(s)) == NonSpace(s)
    decreases |s|
  {
    if s != [] {
      if IsSpace(s[0]) {
        WordsKeepText(s[1..]);
      } else {
        var k := WordEnd(s);
        WordsKeepText(s[k..]);
        assert s == s[..k] + s[k..];
        NonSpaceAppend(s[..k], s[k..]);
        NonSpaceOfWord(s[..k]);
      }
    }
  }

  /** Tokens joined by single spaces split back into the same tokens. */
  lemma {:induction false} WordsOfJoin(ws: seq<string>)
    requires forall i :: 0 <= i < |ws| ==> IsWord(ws[i])
    ensures Words(Join(ws, " ")) == ws
    decreases |ws|
  {
    if |ws| == 1 {
      var w := ws[0];
      assert WordEnd(w) == |w|;
      assert w[..|w|] == w && w[|w|..] == [];
    } else if |ws| > 1 {
      var w := ws[0];
      var rest := Join(ws[1..], " ");
      var s := w + " " + rest;
      assert Join(ws, " ") == s;
      assert WordEnd(s) == |w| by {
        assert forall j :: 0 <= j < |w| ==> s[j] == w[j];
        assert s[|w|] == ' ';
      }
      assert s[..|w|] == w;
      assert s[|w|..] == " " + rest;
      assert (" " + rest)[1..] == rest;
      WordsOfJoin(ws[1..]);
    }
  }

  // ---------------------------------------------------------------------------
  // lower()

  /** Lower-case of one character; only ASCII letters change. */
  function LowerChar(c: char): char
  {
    if 'A' <= c <= 'Z' then (c as int + 32) as char else c
  }

  /** `s.lower()` on ASCII letters. */
  function Lower(s: string): (r: string)
    ensures |r| == |s|
    ensures forall i :: 0 <= i < |s| ==> r[i] == LowerChar(s[i])
  {
    seq(|s|, i requires 0 <= i < |s| => LowerChar(s[i]))
  }

  /** Lower-casing leaves no upper-case ASCII letter, changes nothing else than
      those letters, and lower-casing twice is lower-casing once. */
  lemma LowerSpec(s: string)
    ensures forall i :: 0 <= i < |s| ==> !('A' <= Lower(s)[i] <= 'Z')
    ensures forall i :: 0 <= i < |s| && !('A' <= s[i] <= 'Z') ==> Lower(s)[i] == s[i]
    ensures Lower(Lower(s)) == Lower(s)
  {
  }
}
