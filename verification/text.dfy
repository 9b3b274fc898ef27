/**
 * The .NET string operations the WSL service relies on, over `string`
 * (a sequence of UTF-16 code units in the source, of chars here):
 * Char.IsWhiteSpace, String.Trim/TrimStart, ordinal Contains, ordinal
 * case-insensitive comparison, and Split with RemoveEmptyEntries.
 */
module Text {
  import opened Seqs

  /** The characters Char.IsWhiteSpace accepts: U+0009..U+000D, the
      Unicode space separators, U+0085, and the line and paragraph
      separators. */
  const WhiteSpaceChars: set<char> := {
    '\t', '\n', '\U{000B}', '\U{000C}', '\r', ' ', '\U{0085}', '\U{00A0}', '\U{1680}',
    '\U{2000}', '\U{2001}', '\U{2002}', '\U{2003}', '\U{2004}', '\U{2005}',
    '\U{2006}', '\U{2007}', '\U{2008}', '\U{2009}', '\U{200A}',
    '\U{2028}', '\U{2029}', '\U{202F}', '\U{205F}', '\U{3000}'
  }

  /** Char.IsWhiteSpace */
  predicate IsWhiteSpace(c: char) {
    c in WhiteSpaceChars
  }

  /** String.IsNullOrWhiteSpace (a C# null string is never passed here). */
  predicate AllWhiteSpace(s: string) {
    forall i :: 0 <= i < |s| ==> IsWhiteSpace(s[i])
  }

  /** Number of white-space characters at the start of `s`. */
  function LeadingWhiteSpace(s: string): (n: nat)
    ensures n <= |s|
    ensures forall i :: 0 <= i < n ==> IsWhiteSpace(s[i])
    ensures n < |s| ==> !IsWhiteSpace(s[n])
  {
    if |s| == 0 || !IsWhiteSpace(s[0]) then 0 else 1 + LeadingWhiteSpace(s[1..])
  }

  /** Number of white-space characters at the end of `s`. */
  function TrailingWhiteSpace(s: string): (n: nat)
    ensures n <= |s|
    ensures forall i :: |s| - n <= i < |s| ==> IsWhiteSpace(s[i])
    ensures n < |s| ==> !IsWhiteSpace(s[|s| - 1 - n])
  {
    if |s| == 0 || !IsWhiteSpace(s[|s| - 1]) then 0
    else 1 + TrailingWhiteSpace(s[..|s| - 1])
  }

  /** String.TrimStart() */
  function TrimStart(s: string): string {
    s[LeadingWhiteSpace(s)..]
  }

  /** String.TrimEnd() */
  function TrimEnd(s: string): string {
    s[..|s| - TrailingWhiteSpace(s)]
  }

  /** String.Trim(): the result is the slice of `s` left once the white
      space at both ends is cut off, and it neither starts nor ends with
      white space. */
  function Trim(s: string): (t: string)
    ensures LeadingWhiteSpace(s) + |t| <= |s|
    ensures t == s[LeadingWhiteSpace(s)..LeadingWhiteSpace(s) + |t|]
    ensures AllWhiteSpace(s[LeadingWhiteSpace(s) + |t|..])
    ensures t == [] <==> AllWhiteSpace(s)
    ensures t != [] ==> !IsWhiteSpace(t[0]) && !IsWhiteSpace(t[|t| - 1])
  {
    var u := TrimStart(s);
    assert u != [] ==> !IsWhiteSpace(u[0]);
    assert AllWhiteSpace(s) ==> u == [];
    TrimEnd(u)
  }

  /** Trimming the start of a trimmed string changes nothing. */
  lemma TrimStartOfTrim(s: string)
    ensures TrimStart(Trim(s)) == Trim(s)
  {
    TrimOfTrimmed(Trim(s));
  }

  /** A string with no white space at either end is its own trim. */
  lemma TrimOfTrimmed(s: string)
    requires s == [] || (!IsWhiteSpace(s[0]) && !IsWhiteSpace(s[|s| - 1]))
    ensures Trim(s) == s
    ensures TrimStart(s) == s
  {
  }

  /** A text is its leading white space, its trim, and its trailing white
      space, in that order. */
  lemma TrimSplits(s: string)
    ensures s == s[..LeadingWhiteSpace(s)] + Trim(s) + s[LeadingWhiteSpace(s) + |Trim(s)|..]
    ensures AllWhiteSpace(s[..LeadingWhiteSpace(s)])
    ensures AllWhiteSpace(s[LeadingWhiteSpace(s) + |Trim(s)|..])
  {
    var lead, t := LeadingWhiteSpace(s), Trim(s);
    assert s[..lead] + s[lead..lead + |t|] + s[lead + |t|..] == s;
    forall i | 0 <= i < lead
      ensures IsWhiteSpace(s[..lead][i])
    {
      assert s[..lead][i] == s[i];
    }
  }

  /** Conversely, Trim cuts off exactly the white-space padding around a
      text that neither starts nor ends with white space. */
  lemma TrimPadded(w1: string, t: string, w2: string)
    requires AllWhiteSpace(w1) && AllWhiteSpace(w2)
    requires t == [] || (!IsWhiteSpace(t[0]) && !IsWhiteSpace(t[|t| - 1]))
    ensures Trim(w1 + t + w2) == t
  {
    var s := w1 + t + w2;
    if t == [] {
      forall i | 0 <= i < |s|
        ensures IsWhiteSpace(s[i])
      {
        if i < |w1| {
          assert s[i] == w1[i];
        } else {
          assert s[i] == w2[i - |w1|];
        }
      }
    } else {
      assert LeadingWhiteSpace(s) == |w1| by {
        assert s[|w1|] == t[0];
        assert forall i :: 0 <= i < |w1| ==> s[i] == w1[i];
      }
      var u := TrimStart(s);
      assert u == t + w2;
      assert TrailingWhiteSpace(u) == |w2| by {
        assert u[|t| - 1] == t[|t| - 1];
        assert forall i :: |t| <= i < |u| ==> u[i] == w2[i - |t|];
      }
      assert u[..|t|] == t;
    }
  }

  lemma TrimIdempotent(s: string)
    ensures Trim(Trim(s)) == Trim(s)
  {
    TrimOfTrimmed(Trim(s));
  }

  /** `s` contains `w` at some position (ordinal String.Contains). */
  predicate Contains(s: string, w: string)
    decreases |s|
  {
    w <= s || (|s| > 0 && Contains(s[1..], w))
  }

  lemma {:induction false} ContainsAt(s: string, w: string, i: nat)
    requires i <= |s| && w <= s[i..]
    ensures Contains(s, w)
    decreases i
  {
    if i == 0 {
      assert s[0..] == s;
    } else {
      assert s[1..][i - 1..] == s[i..];
      ContainsAt(s[1..], w, i - 1);
    }
  }

  lemma {:induction false} ContainsWitness(s: string, w: string) returns (i: nat)
    requires Contains(s, w)
    ensures i + |w| <= |s| && s[i..i + |w|] == w
    decreases |s|
  {
    if w <= s {
      i := 0;
    } else {
      var j := ContainsWitness(s[1..], w);
      i := j + 1;
    }
  }

  /** `w` occurs in `s` starting at index `i`. */
  predicate OccursAt(s: string, w: string, i: nat) {
    i + |w| <= |s| && s[i..i + |w|] == w
  }

  /** Contains, stated by positions. */
  lemma ContainsIff(s: string, w: string)
    ensures Contains(s, w) <==> exists i: nat :: OccursAt(s, w, i)
  {
    if Contains(s, w) {
      var i := ContainsWitness(s, w);
      assert OccursAt(s, w, i);
    }
    if exists i: nat :: OccursAt(s, w, i) {
      var i: nat :| OccursAt(s, w, i);
      assert s[i..][..|w|] == s[i..i + |w|];
      ContainsAt(s, w, i);
    }
  }

  /** A string lacking some character of `w` cannot contain `w`. */
  lemma NotContainsMissingChar(s: string, w: string, k: nat)
    requires k < |w| && w[k] !in s
    ensures !Contains(s, w)
  {
    if Contains(s, w) {
      var i := ContainsWitness(s, w);
    }
  }

  /** An occurrence inside a slice is an occurrence in the whole. */
  lemma ContainsSlice(s: string, a: nat, b: nat, w: string)
    requires a <= b <= |s| && Contains(s[a..b], w)
    ensures Contains(s, w)
  {
    var j := ContainsWitness(s[a..b], w);
    var u, v := s[a..b][j..j + |w|], s[a + j..a + j + |w|];
    assert forall k :: 0 <= k < |w| ==> u[k] == v[k];
    assert s[a + j..][..|w|] == w;
    ContainsAt(s, w, a + j);
  }

  /** An occurrence lying within a slice is found in the slice. */
  lemma ContainsInSlice(s: string, a: nat, b: nat, w: string, i: nat)
    requires a <= i && i + |w| <= b <= |s| && s[i..i + |w|] == w
    ensures Contains(s[a..b], w)
  {
    var u, v := s[a..b][i - a..i - a + |w|], s[i..i + |w|];
    assert forall k :: 0 <= k < |w| ==> u[k] == v[k];
    assert s[a..b][i - a..][..|w|] == w;
    ContainsAt(s[a..b], w, i - a);
  }

  /** Every character that is not white space survives trimming. */
  lemma InsideTrim(s: string, p: nat)
    requires p < |s| && !IsWhiteSpace(s[p])
    ensures LeadingWhiteSpace(s) <= p < LeadingWhiteSpace(s) + |Trim(s)|
  {
  }

  /** An occurrence of a word that starts and ends with non-white
      characters lies inside the trimmed text. */
  lemma OccurrenceInsideTrim(s: string, w: string, i: nat)
    requires |w| > 0 && !IsWhiteSpace(w[0]) && !IsWhiteSpace(w[|w| - 1])
    requires i + |w| <= |s| && s[i..i + |w|] == w
    ensures LeadingWhiteSpace(s) <= i && i + |w| <= LeadingWhiteSpace(s) + |Trim(s)|
  {
    assert s[i..i + |w|][0] == s[i];
    assert s[i..i + |w|][|w| - 1] == s[i + |w| - 1];
    InsideTrim(s, i);
    InsideTrim(s, i + |w| - 1);
  }

  /** An occurrence of a word with non-white ends survives trimming. */
  lemma TrimKeepsOccurrence(s: string, w: string, i: nat)
    requires |w| > 0 && !IsWhiteSpace(w[0]) && !IsWhiteSpace(w[|w| - 1])
    requires i + |w| <= |s| && s[i..i + |w|] == w
    ensures Contains(Trim(s), w)
  {
    var lead, t := LeadingWhiteSpace(s), Trim(s);
    assert lead <= i && i + |w| <= lead + |t| by {
      OccurrenceInsideTrim(s, w, i);
    }
    var j := i - lead;
    assert w <= t[j..] by {
      assert t == s[lead..lead + |t|];
      forall k | 0 <= k < |w|
        ensures t[j..][k] == w[k]
      {
        assert t[j..][k] == s[i + k];
        assert s[i..i + |w|][k] == s[i + k];
      }
    }
    ContainsAt(t, w, j);
  }

  /** What the trimmed text contains, the whole text contains. */
  lemma TrimmedOccurrenceInWhole(s: string, w: string)
    requires Contains(Trim(s), w)
    ensures Contains(s, w)
  {
    var lead, t := LeadingWhiteSpace(s), Trim(s);
    assert s[lead..lead + |t|] == t;
    ContainsSlice(s, lead, lead + |t|, w);
  }

  /** Trimming neither creates nor loses an occurrence of a word whose first
      and last characters are not white space. */
  lemma ContainsTrim(s: string, w: string)
    requires |w| > 0 && !IsWhiteSpace(w[0]) && !IsWhiteSpace(w[|w| - 1])
    ensures Contains(Trim(s), w) <==> Contains(s, w)
  {
    if Contains(s, w) {
      var i := ContainsWitness(s, w);
      TrimKeepsOccurrence(s, w, i);
    }
    if Contains(Trim(s), w) {
      TrimmedOccurrenceInWhole(s, w);
    }
  }

  /** Ordinal, ASCII-range upper-casing of one character, as an
      OrdinalIgnoreCase comparison does for the letters a to z. */
  function ToUpperAscii(c: char): char {
    if 'a' <= c <= 'z' then (c as int - 32) as char else c
  }

  function ToUpper(s: string): (u: string)
    ensures |u| == |s|
    ensures forall i :: 0 <= i < |s| ==> u[i] == ToUpperAscii(s[i])
  {
    seq(|s|, i requires 0 <= i < |s| => ToUpperAscii(s[i]))
  }

  /** String.Equals(a, b, StringComparison.OrdinalIgnoreCase) */
  predicate EqualsIgnoreCase(a: string, b: string) {
    ToUpper(a) == ToUpper(b)
  }

  /** String.Contains(w, StringComparison.OrdinalIgnoreCase) */
  predicate ContainsIgnoreCase(s: string, w: string) {
    Contains(ToUpper(s), ToUpper(w))
  }

  predicate NoneIn(s: string, seps: set<char>) {
    forall i :: 0 <= i < |s| ==> s[i] !in seps
  }

  predicate AllIn(s: string, seps: set<char>) {
    forall i :: 0 <= i < |s| ==> s[i] in seps
  }

  /** Length of the run of non-separator characters that starts `s`. */
  function WordLength(s: string, seps: set<char>): (n: nat)
    ensures n <= |s|
    ensures forall i :: 0 <= i < n ==> s[i] !in seps
    ensures n < |s| ==> s[n] in seps
  {
    if |s| == 0 || s[0] in seps then 0 else 1 + WordLength(s[1..], seps)
  }

  /** The ensures of WordLength pin it down. */
  lemma WordLengthUnique(s: string, seps: set<char>, k: nat)
    requires k <= |s|
    requires forall i :: 0 <= i < k ==> s[i] !in seps
    requires k < |s| ==> s[k] in seps
    ensures WordLength(s, seps) == k
  {
  }

  /** String.Split(seps, StringSplitOptions.RemoveEmptyEntries): the maximal
      runs of non-separator characters, in order. */
  function Split(s: string, seps: set<char>): (parts: seq<string>)
    ensures forall k :: 0 <= k < |parts| ==> parts[k] != [] && NoneIn(parts[k], seps)
    decreases |s|
  {
    if |s| == 0 then []
    else if s[0] in seps then Split(s[1..], seps)
    else
      var n := WordLength(s, seps);
      [s[..n]] + Split(s[n..], seps)
  }

  /** `s` with every separator character deleted. */
  function Remove(s: string, seps: set<char>): string
    decreases |s|
  {
    if |s| == 0 then [] else (if s[0] in seps then [] else [s[0]]) + Remove(s[1..], seps)
  }

  lemma {:induction false} RemoveAppend(a: string, b: string, seps: set<char>)
    ensures Remove(a + b, seps) == Remove(a, seps) + Remove(b, seps)
    decreases |a|
  {
    if |a| == 0 {
      assert a + b == b;
    } else {
      assert (a + b)[1..] == a[1..] + b;
      RemoveAppend(a[1..], b, seps);
    }
  }

  lemma {:induction false} RemoveNone(s: string, seps: set<char>)
    requires NoneIn(s, seps)
    ensures Remove(s, seps) == s
    decreases |s|
  {
    if |s| > 0 {
      RemoveNone(s[1..], seps);
    }
  }

  /** Splitting loses nothing but the separators: the pieces concatenate to
      the input with its separators deleted. */
  lemma {:induction false} SplitConcat(s: string, seps: set<char>)
    ensures Concat(Split(s, seps)) == Remove(s, seps)
    decreases |s|
  {
    if |s| == 0 {
    } else if s[0] in seps {
      SplitConcat(s[1..], seps);
    } else {
      var n := WordLength(s, seps);
      var parts := Split(s, seps);
      assert parts == [s[..n]] + Split(s[n..], seps);
      assert parts[1..] == Split(s[n..], seps);
      SplitConcat(s[n..], seps);
      assert s == s[..n] + s[n..];
      RemoveAppend(s[..n], s[n..], seps);
      RemoveNone(s[..n], seps);
    }
  }

  /** A non-empty separator-free string is one piece. */
  lemma SplitWord(w: string, seps: set<char>)
    requires w != [] && NoneIn(w, seps)
    ensures Split(w, seps) == [w]
  {
    WordLengthUnique(w, seps, |w|);
    assert w[..|w|] == w;
    assert w[|w|..] == [];
  }

  /** Leading separators are skipped. */
  lemma {:induction false} SplitSkip(gap: string, b: string, seps: set<char>)
    requires AllIn(gap, seps)
    ensures Split(gap + b, seps) == Split(b, seps)
    decreases |gap|
  {
    if |gap| > 0 {
      assert (gap + b)[1..] == gap[1..] + b;
      SplitSkip(gap[1..], b, seps);
    } else {
      assert gap + b == b;
    }
  }

  /** A non-empty run of separators splits the string in two independent halves. */
  lemma {:induction false} SplitGap(a: string, gap: string, b: string, seps: set<char>)
    requires gap != [] && AllIn(gap, seps)
    ensures Split(a + gap + b, seps) == Split(a, seps) + Split(b, seps)
    decreases |a|
  {
    var s := a + gap + b;
    if |a| == 0 {
      assert s == gap + b;
      SplitSkip(gap, b, seps);
    } else if a[0] in seps {
      assert s[1..] == a[1..] + gap + b;
      SplitGap(a[1..], gap, b, seps);
    } else {
      var m := WordLength(a, seps);
      assert s[m] in seps by {
        if m < |a| { assert s[m] == a[m]; } else { assert s[m] == gap[0]; }
      }
      WordLengthUnique(s, seps, m);
      assert s[..m] == a[..m];
      assert s[m..] == a[m..] + gap + b;
      SplitGap(a[m..], gap, b, seps);
    }
  }

  /** A word followed by separators is the first piece, whatever follows. */
  lemma SplitFirstWord(w: string, gap: string, rest: string, seps: set<char>)
    requires w != [] && NoneIn(w, seps) && gap != [] && AllIn(gap, seps)
    ensures |Split(w + gap + rest, seps)| > 0 && Split(w + gap + rest, seps)[0] == w
  {
    SplitGap(w, gap, rest, seps);
    SplitWord(w, seps);
  }

  /** A string starting with a non-separator yields a first piece starting with it. */
  lemma SplitFirst(s: string, seps: set<char>)
    requires s != [] && s[0] !in seps
    ensures |Split(s, seps)| > 0 && Split(s, seps)[0][0] == s[0]
  {
  }

  /** Dropping the first character never adds a piece. */
  lemma SplitCountTail(s: string, seps: set<char>)
    requires s != []
    ensures |Split(s[1..], seps)| <= |Split(s, seps)|
  {
    if s[0] !in seps {
      var n := WordLength(s, seps);
      if n > 1 {
        WordLengthUnique(s[1..], seps, n - 1);
        assert s[1..][n - 1..] == s[n..];
      }
    }
  }

  /** Dropping a prefix never adds a piece. */
  lemma {:induction false} SplitCountSuffix(a: string, b: string, seps: set<char>)
    ensures |Split(b, seps)| <= |Split(a + b, seps)|
    decreases |a|
  {
    if |a| == 0 {
      assert a + b == b;
    } else {
      assert (a + b)[1..] == a[1..] + b;
      SplitCountSuffix(a[1..], b, seps);
      SplitCountTail(a + b, seps);
    }
  }

  /** Dropping a suffix never adds a piece. */
  lemma {:induction false} SplitCountPrefix(a: string, b: string, seps: set<char>)
    ensures |Split(a, seps)| <= |Split(a + b, seps)|
    decreases |a|
  {
    var s := a + b;
    if |a| == 0 {
    } else if a[0] in seps {
      assert s[1..] == a[1..] + b;
      SplitCountPrefix(a[1..], b, seps);
    } else {
      var m := WordLength(a, seps);
      if m < |a| {
        WordLengthUnique(s, seps, m);
        assert s[m..] == a[m..] + b;
        SplitCountPrefix(a[m..], b, seps);
      }
    }
  }

  /** A slice never has more pieces than the whole. */
  lemma SplitCountSlice(s: string, i: nat, j: nat, seps: set<char>)
    requires i <= j <= |s|
    ensures |Split(s[i..j], seps)| <= |Split(s, seps)|
  {
    assert s[..j] == s[..i] + s[i..j];
    SplitCountSuffix(s[..i], s[i..j], seps);
    assert s == s[..j] + s[j..];
    SplitCountPrefix(s[..j], s[j..], seps);
  }
}
