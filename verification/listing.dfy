/**
 * Parsing the text the WSL tool prints: `--list --verbose` rows into
 * Distribution records (ParseDistributionLine and the line loop of
 * GetDistributionsAsync) and `--list --online` into installable names
 * (GetAvailableDistributionsAsync).
 */
module Listing {
  import opened Options
  import opened Seqs
  import opened Text
  import opened Int32Parse
  import opened Distributions
  import opened Selection

  /** Output.Split(new[] { '\r', '\n' }, RemoveEmptyEntries) */
  const LineBreaks: set<char> := {'\r', '\n'}

  /** line.Split(new[] { ' ', '\t' }, RemoveEmptyEntries) */
  const ColumnSeparators: set<char> := {' ', '\t'}

  /** Characters that separate columns of a raw line, once NUL and tab have
      been turned into spaces. */
  const RawSeparators: set<char> := {' ', '\t', '\0'}

  /** The version given to a row whose VERSION column does not parse. */
  const DefaultVersion: int := 2

  // ---------------------------------------------------------------------
  // One row of `wsl --list --verbose`
  // ---------------------------------------------------------------------

  /** NUL and tab become spaces; everything else is kept. */
  function BlankChar(c: char): char {
    if c == '\0' || c == '\t' then ' ' else c
  }

  /** line.Replace('\u0000', ' ').Replace('\t', ' ') */
  function BlankControls(line: string): (r: string)
    ensures |r| == |line|
    ensures forall i :: 0 <= i < |line| ==> r[i] == BlankChar(line[i])
  {
    seq(|line|, i requires 0 <= i < |line| => BlankChar(line[i]))
  }

  /** The header test: case-sensitive substring search for a column title. */
  predicate HasHeaderWord(line: string) {
    Contains(line, "NAME") || Contains(line, "STATE") || Contains(line, "VERSION")
  }

  /** StartsWith("*") */
  predicate StartsWithMarker(s: string) {
    |s| > 0 && s[0] == '*'
  }

  /** `int.TryParse(token, out var v) ? v : 2` */
  function VersionOrDefault(token: string): int {
    match TryParseInt32(token)
    case Some(v) => v
    case None => DefaultVersion
  }

  /** The cleaned line: NUL and tab blanked, then trimmed. */
  function Cleaned(line: string): string {
    Trim(BlankControls(line))
  }

  /** The text the columns are cut from: the cleaned line, without its
      default marker and the white space after it. */
  function Body(cleaned: string): string {
    if StartsWithMarker(TrimStart(cleaned)) then Trim(TrimStart(cleaned)[1..]) else cleaned
  }

  /** The space/tab separated pieces of the body. */
  function Columns(line: string): seq<string> {
    Split(Body(Cleaned(line)), ColumnSeparators)
  }

  /** ParseDistributionLine: null for a blank line, a header line or a line
      of fewer than three columns; otherwise name, state and version are
      the first three columns (trimmed), the version falling back to 2. */
  function ParseDistributionLine(line: string): Option<Distribution> {
    if AllWhiteSpace(line) then None
    else if HasHeaderWord(Cleaned(line)) then None
    else
      var parts := Columns(line);
      if |parts| < 3 then None
      else
        var name := Trim(parts[0]);
        var state := Trim(parts[1]);
        if name == [] then None
        else
          var isDefault := StartsWithMarker(TrimStart(Cleaned(line)));
          Some(Distribution(name, state, VersionOrDefault(Trim(parts[2])), isDefault))
  }

  /** White space or NUL: what the cleaning step turns into trimmable space. */
  predicate Blank(c: char) {
    IsWhiteSpace(c) || c == '\0'
  }

  /** The first character of the line that is neither white space nor NUL
      is the default marker '*'. */
  predicate MarkedDefault(line: string) {
    exists k :: 0 <= k < |line| && line[k] == '*' && forall j :: 0 <= j < k ==> Blank(line[j])
  }

  /** A field as the parser hands it out: no space, tab or NUL inside, and no
      white space at either end. */
  predicate CleanField(s: string) {
    NoneIn(s, RawSeparators) && (s == [] || (!IsWhiteSpace(s[0]) && !IsWhiteSpace(s[|s| - 1])))
  }

  predicate Trimmed(s: string) {
    s == [] || (!IsWhiteSpace(s[0]) && !IsWhiteSpace(s[|s| - 1]))
  }

  lemma BodyTrimmed(cleaned: string)
    requires Trimmed(cleaned)
    ensures Trimmed(Body(cleaned))
    ensures NoneIn(cleaned, {'\0'}) ==> NoneIn(Body(cleaned), {'\0'})
  {
    assert TrimStart(cleaned) == cleaned by {
      TrimOfTrimmed(cleaned);
    }
    if StartsWithMarker(cleaned) {
      var rest := cleaned[1..];
      assert Body(cleaned) == Trim(rest);
      if NoneIn(cleaned, {'\0'}) {
        assert NoneIn(rest, {'\0'});
        TrimKeepsOut(rest, {'\0'});
      }
    }
  }

  /** Blanking never creates or destroys an occurrence of a word without
      spaces, tabs or NULs. */
  lemma ContainsBlankControls(line: string, w: string)
    requires NoneIn(w, RawSeparators)
    ensures Contains(BlankControls(line), w) <==> Contains(line, w)
  {
    var m := BlankControls(line);
    if Contains(line, w) {
      var i := ContainsWitness(line, w);
      var u, v := m[i..i + |w|], line[i..i + |w|];
      assert u == v by {
        forall k | 0 <= k < |w|
          ensures u[k] == v[k]
        {
          assert v[k] == w[k];
        }
      }
      assert m[i..][..|w|] == u;
      ContainsAt(m, w, i);
    }
    if Contains(m, w) {
      var i := ContainsWitness(m, w);
      var u, v := m[i..i + |w|], line[i..i + |w|];
      assert u == v by {
        forall k | 0 <= k < |w|
          ensures u[k] == v[k]
        {
          assert u[k] == w[k];
        }
      }
      assert line[i..][..|w|] == v;
      ContainsAt(line, w, i);
    }
  }

  /** A word without white space or NUL. */
  predicate Solid(w: string) {
    |w| > 0 && forall k :: 0 <= k < |w| ==> !Blank(w[k])
  }

  lemma HeaderWordsSolid()
    ensures Solid("NAME") && Solid("STATE") && Solid("VERSION")
  {
  }

  /** The header test on the cleaned line is the header test on the raw line. */
  lemma HeaderWordCleaned(line: string)
    ensures HasHeaderWord(Cleaned(line)) <==> HasHeaderWord(line)
  {
    HeaderWordsSolid();
    assert Contains(Cleaned(line), "NAME") <==> Contains(line, "NAME") by {
      WordCleaned(line, "NAME");
    }
    assert Contains(Cleaned(line), "STATE") <==> Contains(line, "STATE") by {
      WordCleaned(line, "STATE");
    }
    assert Contains(Cleaned(line), "VERSION") <==> Contains(line, "VERSION") by {
      WordCleaned(line, "VERSION");
    }
  }

  /** Cleaning neither creates nor destroys an occurrence of a word free of
      white space and NUL. */
  lemma WordCleaned(line: string, w: string)
    requires Solid(w)
    ensures Contains(Cleaned(line), w) <==> Contains(line, w)
  {
    ContainsBlankControls(line, w);
    ContainsTrim(BlankControls(line), w);
  }

  /** A line whose every character is white space yields no record. */
  lemma WhiteSpaceLineDropped(line: string)
    requires AllWhiteSpace(line)
    ensures ParseDistributionLine(line) == None
  {
  }

  /** A line mentioning NAME, STATE or VERSION yields no record, whatever
      else it holds: three columns or a default marker do not save it. */
  lemma HeaderLineDropped(line: string)
    requires HasHeaderWord(line)
    ensures ParseDistributionLine(line) == None
  {
    HeaderWordCleaned(line);
  }

  /** Splitting the blanked line on space/tab is splitting the raw line on
      space/tab/NUL. */
  lemma {:induction false} SplitBlankControls(line: string)
    ensures Split(BlankControls(line), ColumnSeparators) == Split(line, RawSeparators)
    decreases |line|
  {
    var m := BlankControls(line);
    if |line| > 0 {
      if line[0] in RawSeparators {
        assert m[1..] == BlankControls(line[1..]);
        SplitBlankControls(line[1..]);
      } else {
        var n := WordLength(line, RawSeparators);
        WordLengthUnique(m, ColumnSeparators, n);
        assert m[..n] == line[..n];
        assert m[n..] == BlankControls(line[n..]);
        SplitBlankControls(line[n..]);
      }
    }
  }

  /** Removing the marker never adds a column. */
  lemma BodyCount(cleaned: string)
    requires Trimmed(cleaned)
    ensures |Split(Body(cleaned), ColumnSeparators)| <= |Split(cleaned, ColumnSeparators)|
  {
    assert TrimStart(cleaned) == cleaned by {
      TrimOfTrimmed(cleaned);
    }
    if StartsWithMarker(cleaned) {
      var rest := cleaned[1..];
      assert Body(cleaned) == Trim(rest);
      assert rest == cleaned[1..|cleaned|];
      SplitCountSlice(cleaned, 1, |cleaned|, ColumnSeparators);
      TrimCount(rest, ColumnSeparators);
    }
  }

  lemma TrimCount(s: string, seps: set<char>)
    ensures |Split(Trim(s), seps)| <= |Split(s, seps)|
  {
    var t := Trim(s);
    var lead := LeadingWhiteSpace(s);
    assert t == s[lead..lead + |t|];
    SplitCountSlice(s, lead, lead + |t|, seps);
  }

  /** Cleaning and marker removal never add a column. */
  lemma ColumnsCount(line: string)
    ensures |Columns(line)| <= |Split(line, RawSeparators)|
  {
    var m := BlankControls(line);
    SplitBlankControls(line);
    TrimCount(m, ColumnSeparators);
    BodyCount(Trim(m));
  }

  /** A line of fewer than three pieces separated by space, tab or NUL yields
      no record. */
  lemma FewColumnsDropped(line: string)
    requires |Split(line, RawSeparators)| < 3
    ensures ParseDistributionLine(line) == None
  {
    ColumnsCount(line);
  }

  lemma BlankCharWhite(c: char)
    ensures IsWhiteSpace(BlankChar(c)) <==> Blank(c)
  {
  }

  /** Where the blanked line's leading white space ends, in terms of the raw
      line: before it every character is white space or NUL, at it (if
      anywhere) one that is neither. */
  lemma BlankedLead(line: string)
    ensures var lead := LeadingWhiteSpace(BlankControls(line));
      && (forall j :: 0 <= j < lead ==> Blank(line[j]))
      && (lead < |line| ==> !Blank(line[lead]))
  {
    var m := BlankControls(line);
    var lead := LeadingWhiteSpace(m);
    forall j | 0 <= j < lead
      ensures Blank(line[j])
    {
      BlankCharWhite(line[j]);
    }
    if lead < |line| {
      BlankCharWhite(line[lead]);
    }
  }

  /** MarkedDefault holds exactly when the first non-blank character is '*'. */
  lemma MarkedDefaultAt(line: string, lead: nat)
    requires lead <= |line|
    requires forall j :: 0 <= j < lead ==> Blank(line[j])
    requires lead < |line| ==> !Blank(line[lead])
    ensures MarkedDefault(line) <==> lead < |line| && line[lead] == '*'
  {
    if MarkedDefault(line) {
      var k :| 0 <= k < |line| && line[k] == '*' && forall j :: 0 <= j < k ==> Blank(line[j]);
      assert !Blank(line[k]);
      assert lead == k;
    }
  }

  /** The cleaned line starts at the first character of the blanked line
      that is not white space. */
  lemma CleanedStart(line: string)
    ensures var m := BlankControls(line);
      var lead := LeadingWhiteSpace(m);
      StartsWithMarker(Cleaned(line)) <==> lead < |m| && m[lead] == '*'
  {
    var m := BlankControls(line);
    var lead := LeadingWhiteSpace(m);
    var cleaned := Trim(m);
    if lead < |m| {
      assert !AllWhiteSpace(m);
      assert cleaned[0] == m[lead];
    }
  }

  /** The marker test on the cleaned line is MarkedDefault on the raw line. */
  lemma MarkerIffMarkedDefault(line: string)
    ensures StartsWithMarker(TrimStart(Cleaned(line))) <==> MarkedDefault(line)
  {
    CleanedMarkerAtLead(line);
    MarkedDefaultAtLead(line);
  }

  /** The marker test on the cleaned line looks at the raw line's first
      character that blanking and trimming keep. */
  lemma CleanedMarkerAtLead(line: string)
    ensures var lead := LeadingWhiteSpace(BlankControls(line));
      StartsWithMarker(TrimStart(Cleaned(line))) <==> lead < |line| && line[lead] == '*'
  {
    TrimStartOfTrim(BlankControls(line));
    CleanedStart(line);
  }

  lemma MarkedDefaultAtLead(line: string)
    ensures var lead := LeadingWhiteSpace(BlankControls(line));
      MarkedDefault(line) <==> lead < |line| && line[lead] == '*'
  {
    BlankedLead(line);
    MarkedDefaultAt(line, LeadingWhiteSpace(BlankControls(line)));
  }

  /** Splitting keeps out of every piece what the whole lacked. */
  lemma {:induction false} SplitKeepsOut(s: string, seps: set<char>, bad: set<char>)
    requires NoneIn(s, bad)
    ensures forall k :: 0 <= k < |Split(s, seps)| ==> NoneIn(Split(s, seps)[k], bad)
    decreases |s|
  {
    if |s| > 0 {
      if s[0] in seps {
        SplitKeepsOut(s[1..], seps, bad);
      } else {
        var n := WordLength(s, seps);
        SplitKeepsOut(s[n..], seps, bad);
      }
    }
  }

  lemma TrimKeepsOut(s: string, bad: set<char>)
    requires NoneIn(s, bad)
    ensures NoneIn(Trim(s), bad)
  {
    var t := Trim(s);
    var lead := LeadingWhiteSpace(s);
    forall i | 0 <= i < |t|
      ensures t[i] !in bad
    {
      assert t[i] == s[lead + i];
    }
  }

  /** Every column is free of space, tab and NUL, and the first one starts
      with a character that is not white space. */
  lemma ColumnsFacts(line: string)
    ensures forall k :: 0 <= k < |Columns(line)| ==> NoneIn(Columns(line)[k], RawSeparators)
    ensures |Columns(line)| > 0 ==> !IsWhiteSpace(Columns(line)[0][0])
  {
    var cleaned := Cleaned(line);
    var body := Body(cleaned);
    BodyTrimmed(cleaned);
    TrimKeepsOut(BlankControls(line), {'\0'});
    SplitKeepsOut(body, ColumnSeparators, {'\0'});
    if |Columns(line)| > 0 {
      SplitFirst(body, ColumnSeparators);
    }
  }

  /** When a record comes out: exactly when the line is not blank, names no
      column title and has at least three columns. */
  lemma ParseSomeIff(line: string)
    ensures ParseDistributionLine(line).Some? <==>
      !AllWhiteSpace(line) && !HasHeaderWord(line) && |Columns(line)| >= 3
  {
    HeaderWordCleaned(line);
    ColumnsFacts(line);
    var c := Columns(line);
    if |c| >= 3 {
      assert !AllWhiteSpace(c[0]);
    }
  }

  /** What a parsed record holds: name and state are the first two columns
      trimmed (the name never empty, neither holding space, tab or NUL), the
      version is read from the third column and falls back to 2, and the
      record is the default exactly when the line's first character other
      than white space and NUL is '*'. */
  lemma ParseDistributionLineSpec(line: string)
    ensures ParseDistributionLine(line).Some? <==>
      !AllWhiteSpace(line) && !HasHeaderWord(line) && |Columns(line)| >= 3
    ensures ParseDistributionLine(line).Some? ==>
      var d := ParseDistributionLine(line).value;
      var c := Columns(line);
      && d.name == Trim(c[0]) && d.name != [] && CleanField(d.name)
      && d.state == Trim(c[1]) && CleanField(d.state)
      && (TryParseInt32(Trim(c[2])).Some? ==> d.version == TryParseInt32(Trim(c[2])).value)
      && (TryParseInt32(Trim(c[2])).None? ==> d.version == DefaultVersion)
      && (d.isDefault <==> MarkedDefault(line))
  {
    ParseSomeIff(line);
    MarkerIffMarkedDefault(line);
    ColumnsFacts(line);
    var c := Columns(line);
    if |c| >= 3 {
      TrimKeepsOut(c[0], RawSeparators);
      TrimKeepsOut(c[1], RawSeparators);
    }
  }

  // ---------------------------------------------------------------------
  // Rows laid out as the tool prints them
  // ---------------------------------------------------------------------

  /** A column value the tool prints: non-empty, no white space, no NUL. */
  predicate Token(s: string) {
    s != [] && forall i :: 0 <= i < |s| ==> !Blank(s[i])
  }

  /** A run of one or more spaces padding a column. */
  predicate Spaces(g: string) {
    g != [] && forall i :: 0 <= i < |g| ==> g[i] == ' '
  }

  /** A `--list --verbose` data row: a two-character marker column ("* " for
      the default distribution), then name, state and version padded apart. */
  function Row(isDefault: bool, name: string, state: string, version: string, gap1: string, gap2: string): string {
    (if isDefault then "* " else "  ") + name + gap1 + state + gap2 + version
  }

  /** An occurrence of a space-free word lies wholly before or wholly after
      a run of spaces. */
  lemma NoStraddle(a: string, gap: string, b: string, w: string, i: nat)
    requires w != [] && ' ' !in w && Spaces(gap)
    requires i + |w| <= |a + gap + b| && (a + gap + b)[i..i + |w|] == w
    ensures i + |w| <= |a| || i >= |a| + |gap|
  {
    var s := a + gap + b;
    var p := if i >= |a| then i else |a|;
    assert forall q :: i <= q < i + |w| ==> s[q] == w[q - i] && s[q] != ' ';
    assert forall q :: |a| <= q < |a| + |gap| ==> s[q] == ' ';
    var c := s[p];
  }

  /** An occurrence of a space-free word never straddles a run of spaces. */
  lemma ContainsAcrossSpaces(a: string, gap: string, b: string, w: string)
    requires w != [] && ' ' !in w && Spaces(gap)
    ensures Contains(a + gap + b, w) <==> Contains(a, w) || Contains(b, w)
  {
    var s := a + gap + b;
    if Contains(s, w) {
      var i := ContainsWitness(s, w);
      NoStraddle(a, gap, b, w, i);
      if i + |w| <= |a| {
        assert s[..|a|] == a;
        ContainsInSlice(s, 0, |a|, w, i);
      } else {
        assert s[|a| + |gap|..|s|] == b;
        ContainsInSlice(s, |a| + |gap|, |s|, w, i);
      }
    }
    if Contains(a, w) {
      assert s[..|a|] == a;
      ContainsSlice(s, 0, |a|, w);
    }
    if Contains(b, w) {
      assert s[|a| + |gap|..|s|] == b;
      ContainsSlice(s, |a| + |gap|, |s|, w);
    }
  }

  /** A string shorter than the word cannot contain it. */
  lemma ContainsNeedsLength(s: string, w: string)
    requires |s| < |w|
    ensures !Contains(s, w)
  {
    if Contains(s, w) {
      var i := ContainsWitness(s, w);
    }
  }

  /** Trimming white space off the front of an already trimmed text. */
  lemma TrimAfterWhite(g: string, t: string)
    requires AllWhiteSpace(g) && t != [] && Trimmed(t)
    ensures Trim(g + t) == t && TrimStart(g + t) == t
  {
    var s := g + t;
    var lead := LeadingWhiteSpace(s);
    assert s[|g|] == t[0];
    assert lead == |g|;
    assert s[lead..] == t;
    TrimOfTrimmed(t);
  }

  lemma NoHeaderInRow(name: string, state: string, version: string, gap1: string, gap2: string)
    requires Spaces(gap1) && Spaces(gap2)
    requires !HasHeaderWord(name) && !HasHeaderWord(state) && !HasHeaderWord(version)
    ensures !HasHeaderWord(name + gap1 + state + gap2 + version)
    ensures !HasHeaderWord("* " + (name + gap1 + state + gap2 + version))
  {
    var j := name + gap1 + state + gap2 + version;
    var words := ["NAME", "STATE", "VERSION"];
    forall w | w in words
      ensures !Contains(j, w) && !Contains("* " + j, w)
    {
      ContainsAcrossSpaces(name, gap1, state, w);
      ContainsAcrossSpaces(name + gap1 + state, gap2, version, w);
      ContainsNeedsLength("*", w);
      assert "* " + j == "*" + " " + j;
      ContainsAcrossSpaces("*", " ", j, w);
    }
    assert "NAME" in words && "STATE" in words && "VERSION" in words;
  }

  /** Cleaning a printed row: the marker column is recognised and removed,
      leaving the padded columns. */
  lemma RowCleaned(isDefault: bool, j: string)
    requires j != [] && Trimmed(j) && NoneIn(j, {'\0', '\t'}) && j[0] != '*'
    ensures var row := (if isDefault then "* " else "  ") + j;
      && !AllWhiteSpace(row)
      && Cleaned(row) == (if isDefault then row else j)
      && Body(Cleaned(row)) == j
      && (StartsWithMarker(TrimStart(Cleaned(row))) <==> isDefault)
  {
    if isDefault {
      MarkedRowCleaned(j);
    } else {
      UnmarkedRowCleaned(j);
    }
  }

  /** Blanking leaves a row of printable columns as it is. */
  lemma RowBlanked(pad: string, j: string)
    requires NoneIn(pad, {'\0', '\t'}) && NoneIn(j, {'\0', '\t'})
    ensures BlankControls(pad + j) == pad + j
  {
    var row := pad + j;
    forall i | 0 <= i < |row|
      ensures BlankChar(row[i]) == row[i]
    {
      if i < |pad| {
        assert row[i] == pad[i];
      } else {
        assert row[i] == j[i - |pad|];
      }
    }
  }

  lemma MarkedRowCleaned(j: string)
    requires j != [] && Trimmed(j) && NoneIn(j, {'\0', '\t'}) && j[0] != '*'
    ensures var row := "* " + j;
      && !AllWhiteSpace(row)
      && Cleaned(row) == row
      && Body(Cleaned(row)) == j
      && StartsWithMarker(TrimStart(Cleaned(row)))
  {
    var row := "* " + j;
    assert row[0] == '*' && !IsWhiteSpace(row[0]);
    assert BlankControls(row) == row by {
      RowBlanked("* ", j);
    }
    assert Trim(row) == row && TrimStart(row) == row by {
      MarkedRowTrimmed(j);
    }
    assert Trim(row[1..]) == j by {
      MarkedRowRest(j);
    }
  }

  lemma MarkedRowTrimmed(j: string)
    requires j != [] && Trimmed(j)
    ensures Trim("* " + j) == "* " + j && TrimStart("* " + j) == "* " + j
  {
    var row := "* " + j;
    assert row[|row| - 1] == j[|j| - 1];
    TrimOfTrimmed(row);
  }

  lemma MarkedRowRest(j: string)
    requires j != [] && Trimmed(j)
    ensures Trim(("* " + j)[1..]) == j
  {
    assert ("* " + j)[1..] == " " + j;
    TrimAfterWhite(" ", j);
  }

  lemma UnmarkedRowCleaned(j: string)
    requires j != [] && Trimmed(j) && NoneIn(j, {'\0', '\t'}) && j[0] != '*'
    ensures var row := "  " + j;
      && !AllWhiteSpace(row)
      && Cleaned(row) == j
      && Body(Cleaned(row)) == j
      && !StartsWithMarker(TrimStart(Cleaned(row)))
  {
    var row := "  " + j;
    assert BlankControls(row) == row && Trim(row) == j by {
      RowBlanked("  ", j);
      TrimAfterWhite("  ", j);
    }
    assert TrimStart(j) == j && Trim(j) == j by {
      TrimOfTrimmed(j);
    }
  }

  /** The padded columns split into exactly the three values. */
  lemma RowColumns(name: string, state: string, version: string, gap1: string, gap2: string)
    requires Token(name) && Token(state) && Token(version)
    requires Spaces(gap1) && Spaces(gap2)
    ensures Split(name + gap1 + state + gap2 + version, ColumnSeparators) == [name, state, version]
  {
    SplitWord(name, ColumnSeparators);
    SplitWord(state, ColumnSeparators);
    SplitWord(version, ColumnSeparators);
    SplitGap(name, gap1, state, ColumnSeparators);
    SplitGap(name + gap1 + state, gap2, version, ColumnSeparators);
  }

  /** The record the parser builds once a line has passed its three drop
      tests. */
  lemma ParseKept(line: string)
    requires !AllWhiteSpace(line) && !HasHeaderWord(Cleaned(line))
    requires |Columns(line)| >= 3 && Trim(Columns(line)[0]) != []
    ensures var c := Columns(line);
      ParseDistributionLine(line) == Some(Distribution(Trim(c[0]), Trim(c[1]),
        VersionOrDefault(Trim(c[2])), StartsWithMarker(TrimStart(Cleaned(line)))))
  {
  }

  /** The last steps of the parser, once the columns are known. */
  lemma ParseFromColumns(line: string, name: string, state: string, version: string, isDefault: bool)
    requires !AllWhiteSpace(line) && !HasHeaderWord(Cleaned(line))
    requires Columns(line) == [name, state, version]
    requires StartsWithMarker(TrimStart(Cleaned(line))) <==> isDefault
    requires name != [] && Trimmed(name) && Trimmed(state) && Trimmed(version)
    ensures ParseDistributionLine(line) == Some(Distribution(name, state, VersionOrDefault(version), isDefault))
  {
    var c := Columns(line);
    assert Trim(c[0]) == name && Trim(c[1]) == state && Trim(c[2]) == version by {
      TrimOfTrimmed(name);
      TrimOfTrimmed(state);
      TrimOfTrimmed(version);
    }
    ParseKept(line);
  }

  /** Round trip: a row laid out as the tool prints it parses back into the
      record it displays, with the version text read by int.TryParse. */
  lemma RowRoundTrip(isDefault: bool, name: string, state: string, version: string, gap1: string, gap2: string)
    requires Token(name) && Token(state) && Token(version) && name[0] != '*'
    requires Spaces(gap1) && Spaces(gap2)
    requires !HasHeaderWord(name) && !HasHeaderWord(state) && !HasHeaderWord(version)
    ensures ParseDistributionLine(Row(isDefault, name, state, version, gap1, gap2))
         == Some(Distribution(name, state, VersionOrDefault(version), isDefault))
  {
    var row := Row(isDefault, name, state, version, gap1, gap2);
    var j := name + gap1 + state + gap2 + version;
    assert row == (if isDefault then "* " else "  ") + j;
    assert j != [] && Trimmed(j) && NoneIn(j, {'\0', '\t'}) && j[0] != '*' by {
      assert j[0] == name[0];
      assert j[|j| - 1] == version[|version| - 1];
    }
    assert !AllWhiteSpace(row) && Body(Cleaned(row)) == j
        && (StartsWithMarker(TrimStart(Cleaned(row))) <==> isDefault)
        && Cleaned(row) == (if isDefault then "* " + j else j) by {
      RowCleaned(isDefault, j);
    }
    assert !HasHeaderWord(Cleaned(row)) by {
      NoHeaderInRow(name, state, version, gap1, gap2);
    }
    assert Columns(row) == [name, state, version] by {
      RowColumns(name, state, version, gap1, gap2);
    }
    assert Trimmed(name) && Trimmed(state) && Trimmed(version);
    ParseFromColumns(row, name, state, version, isDefault);
  }

  /** A record with an Int32 version, printed and re-parsed, is itself. */
  lemma RecordRoundTrip(d: Distribution, gap1: string, gap2: string)
    requires Token(d.name) && Token(d.state) && d.name[0] != '*' && IsInt32(d.version)
    requires Spaces(gap1) && Spaces(gap2)
    requires !HasHeaderWord(d.name) && !HasHeaderWord(d.state)
    ensures ParseDistributionLine(Row(d.isDefault, d.name, d.state, ShowInt(d.version), gap1, gap2)) == Some(d)
  {
    var v := ShowInt(d.version);
    assert Token(v) && !HasHeaderWord(v) by {
      ShowIntChars(d.version);
      NumeralToken(v);
      NoHeaderWithoutE(v);
    }
    assert VersionOrDefault(v) == d.version by {
      ParseShowInt(d.version);
    }
    RowRoundTrip(d.isDefault, d.name, d.state, v, gap1, gap2);
  }

  /** A sign or digit is neither blank nor a capital E. */
  lemma NumeralChar(c: char)
    requires c == '-' || IsDigit(c)
    ensures !Blank(c) && c != 'E'
  {
  }

  /** A rendered integer is a column value without a capital E. */
  lemma NumeralToken(s: string)
    requires s != [] && forall i :: 0 <= i < |s| ==> s[i] == '-' || IsDigit(s[i])
    ensures Token(s) && 'E' !in s
  {
    forall i | 0 <= i < |s|
      ensures !Blank(s[i]) && s[i] != 'E'
    {
      NumeralChar(s[i]);
    }
  }

  /** Every column title holds a capital E, so text without one is never
      taken for the header. */
  lemma NoHeaderWithoutE(s: string)
    requires 'E' !in s
    ensures !HasHeaderWord(s)
  {
    NotContainsMissingChar(s, "NAME", 3);
    NotContainsMissingChar(s, "STATE", 4);
    NotContainsMissingChar(s, "VERSION", 1);
  }

  // ---------------------------------------------------------------------
  // The whole `wsl --list --verbose` output
  // ---------------------------------------------------------------------

  /** The foreach loop of GetDistributionsAsync: parse every line in order
      and keep the records that come out. */
  function ParseLines(lines: seq<string>): (ds: seq<Distribution>)
    ensures |ds| <= |lines|
  {
    Collect(lines, ParseDistributionLine)
  }

  /** Every record comes from one of the lines. */
  lemma ParseLinesSound(lines: seq<string>)
    ensures forall k :: 0 <= k < |ParseLines(lines)| ==>
      exists j :: 0 <= j < |lines| && ParseDistributionLine(lines[j]) == Some(ParseLines(lines)[k])
  {
    var ds := ParseLines(lines);
    CollectSound(lines, ParseDistributionLine);
    forall k | 0 <= k < |ds|
      ensures exists j :: 0 <= j < |lines| && ParseDistributionLine(lines[j]) == Some(ds[k])
    {
      var j :| 0 <= j < |lines| && ParseDistributionLine(lines[j]) == Some(ds[k]);
    }
  }

  /** The records of GetDistributionsAsync, from the decoded output. */
  function ParseListing(output: string): seq<Distribution> {
    ParseLines(Split(output, LineBreaks))
  }

  /** Line order is record order: the records of two blocks of lines are
      the first block's records followed by the second's. */
  lemma ParseLinesAppend(a: seq<string>, b: seq<string>)
    ensures ParseLines(a + b) == ParseLines(a) + ParseLines(b)
  {
    CollectAppend(a, b, ParseDistributionLine);
  }

  /** Lines as the tool separates them. */
  function JoinLines(lines: seq<string>): string {
    if |lines| == 0 then ""
    else if |lines| == 1 then lines[0]
    else lines[0] + "\r\n" + JoinLines(lines[1..])
  }

  predicate SingleLines(lines: seq<string>) {
    forall k :: 0 <= k < |lines| ==> NoneIn(lines[k], LineBreaks)
  }

  /** The lines that are not empty, in order. */
  function NonEmpty(lines: seq<string>): (r: seq<string>)
    ensures |r| <= |lines|
    ensures forall k :: 0 <= k < |r| ==> r[k] != [] && r[k] in lines
  {
    if |lines| == 0 then []
    else (if lines[0] == [] then [] else [lines[0]]) + NonEmpty(lines[1..])
  }

  lemma {:induction false} NonEmptyAppend(a: seq<string>, b: seq<string>)
    ensures NonEmpty(a + b) == NonEmpty(a) + NonEmpty(b)
    decreases |a|
  {
    if |a| == 0 {
      assert a + b == b;
    } else {
      var h := if a[0] == [] then [] else [a[0]];
      assert NonEmpty(a + b) == h + NonEmpty(a[1..] + b) by {
        assert (a + b)[0] == a[0];
        assert (a + b)[1..] == a[1..] + b;
      }
      NonEmptyAppend(a[1..], b);
    }
  }

  lemma {:induction false} NonEmptyAll(lines: seq<string>)
    requires forall k :: 0 <= k < |lines| ==> lines[k] != []
    ensures NonEmpty(lines) == lines
    decreases |lines|
  {
    if |lines| > 0 {
      NonEmptyAll(lines[1..]);
    }
  }

  /** Splitting on CR and LF with RemoveEmptyEntries recovers the lines,
      except that empty lines vanish. */
  lemma {:induction false} SplitJoinLines(lines: seq<string>)
    requires SingleLines(lines)
    ensures Split(JoinLines(lines), LineBreaks) == NonEmpty(lines)
    decreases |lines|
  {
    if |lines| == 0 {
    } else if |lines| == 1 {
      if lines[0] != [] {
        SplitWord(lines[0], LineBreaks);
      }
    } else {
      SplitJoinLines(lines[1..]);
      SplitGap(lines[0], "\r\n", JoinLines(lines[1..]), LineBreaks);
      if lines[0] != [] {
        SplitWord(lines[0], LineBreaks);
      }
    }
  }

  /** Dropping empty lines changes nothing for a step that ignores them. */
  lemma {:induction false} CollectNonEmpty<T>(lines: seq<string>, f: string -> Option<T>)
    requires f([]) == None
    ensures Collect(NonEmpty(lines), f) == Collect(lines, f)
    decreases |lines|
  {
    if |lines| > 0 {
      CollectNonEmpty(lines[1..], f);
      var head := if lines[0] == [] then [] else [lines[0]];
      CollectAppend(head, NonEmpty(lines[1..]), f);
      CollectAppend([lines[0]], lines[1..], f);
      assert [lines[0]] + lines[1..] == lines;
      CollectOne(lines[0], f);
      assert Collect([], f) == [];
    }
  }

  /** Empty lines contribute no record. */
  lemma ParseLinesNonEmpty(lines: seq<string>)
    ensures ParseLines(NonEmpty(lines)) == ParseLines(lines)
  {
    assert AllWhiteSpace([]);
    CollectNonEmpty(lines, ParseDistributionLine);
  }

  /** The listing of a block of lines is the records of those lines, in order. */
  lemma ParseListingJoin(lines: seq<string>)
    requires SingleLines(lines)
    ensures ParseListing(JoinLines(lines)) == ParseLines(lines)
  {
    SplitJoinLines(lines);
    ParseLinesNonEmpty(lines);
  }

  /** The column-title line `wsl --list --verbose` prints first. */
  const HeaderLine: string := "  NAME" + "                   " + "STATE" + "           " + "VERSION"

  lemma HeaderLineHasNoRecord()
    ensures ParseDistributionLine(HeaderLine) == None
  {
    assert HeaderLine[2..][..4] == "NAME";
    ContainsAt(HeaderLine, "NAME", 2);
    HeaderLineDropped(HeaderLine);
  }

  /** What a record must look like for the tool to print it unambiguously:
      single-token name and state, the name not starting with the marker,
      no column title inside, and an Int32 version. */
  predicate Printable(d: Distribution) {
    && Token(d.name) && Token(d.state) && d.name[0] != '*' && IsInt32(d.version)
    && !HasHeaderWord(d.name) && !HasHeaderWord(d.state)
  }

  const Padding: string := "   "

  /** One printed row per record. */
  function PrintRows(ds: seq<Distribution>): (rows: seq<string>)
    ensures |rows| == |ds|
  {
    seq(|ds|, k requires 0 <= k < |ds| =>
      Row(ds[k].isDefault, ds[k].name, ds[k].state, ShowInt(ds[k].version), Padding, Padding))
  }

  /** The listing the tool prints for these records: the column titles,
      then one row per record. */
  function PrintListing(ds: seq<Distribution>): string {
    JoinLines([HeaderLine] + PrintRows(ds))
  }

  lemma ParsePrintedRows(ds: seq<Distribution>)
    requires forall k :: 0 <= k < |ds| ==> Printable(ds[k])
    ensures ParseLines(PrintRows(ds)) == ds
  {
    var rows := PrintRows(ds);
    forall k | 0 <= k < |ds|
      ensures ParseDistributionLine(rows[k]) == Some(ds[k])
    {
      RecordRoundTrip(ds[k], Padding, Padding);
    }
    CollectAll(rows, ParseDistributionLine, ds);
  }

  /** A printed row holds no line break. */
  lemma RowSingleLine(d: Distribution)
    requires Printable(d)
    ensures NoneIn(Row(d.isDefault, d.name, d.state, ShowInt(d.version), Padding, Padding), LineBreaks)
  {
    var v := ShowInt(d.version);
    assert forall i :: 0 <= i < |v| ==> v[i] == '-' || IsDigit(v[i]);
  }

  /** Round trip of the whole listing: the records printed one per line
      under the column titles are read back, all of them, in order. */
  lemma ListingRoundTrip(ds: seq<Distribution>)
    requires forall k :: 0 <= k < |ds| ==> Printable(ds[k])
    ensures ParseListing(PrintListing(ds)) == ds
  {
    var lines := [HeaderLine] + PrintRows(ds);
    assert ParseListing(JoinLines(lines)) == ParseLines(lines) by {
      PrintedLinesSingle(ds);
      ParseListingJoin(lines);
    }
    assert ParseLines(lines) == ParseLines(PrintRows(ds)) by {
      ParseUnderHeader(PrintRows(ds));
    }
    ParsePrintedRows(ds);
  }

  lemma HeaderLineSingle()
    ensures NoneIn(HeaderLine, LineBreaks)
  {
  }

  /** Neither the column titles nor a printed row hold a line break. */
  lemma PrintedLinesSingle(ds: seq<Distribution>)
    requires forall k :: 0 <= k < |ds| ==> Printable(ds[k])
    ensures SingleLines([HeaderLine] + PrintRows(ds))
  {
    HeaderLineSingle();
    RowsSingle(ds);
    SingleLinesCons(HeaderLine, PrintRows(ds));
  }

  lemma RowsSingle(ds: seq<Distribution>)
    requires forall k :: 0 <= k < |ds| ==> Printable(ds[k])
    ensures SingleLines(PrintRows(ds))
  {
    forall k | 0 <= k < |ds|
      ensures NoneIn(PrintRows(ds)[k], LineBreaks)
    {
      RowSingleLine(ds[k]);
    }
  }

  lemma SingleLinesCons(line: string, lines: seq<string>)
    requires NoneIn(line, LineBreaks) && SingleLines(lines)
    ensures SingleLines([line] + lines)
  {
    var all := [line] + lines;
    forall k | 0 <= k < |all|
      ensures NoneIn(all[k], LineBreaks)
    {
      if k > 0 {
        assert all[k] == lines[k - 1];
      }
    }
  }

  /** The column titles contribute no record. */
  lemma ParseUnderHeader(rows: seq<string>)
    ensures ParseLines([HeaderLine] + rows) == ParseLines(rows)
  {
    ParseLinesAppend([HeaderLine], rows);
    HeaderLineHasNoRecord();
  }

  // ---------------------------------------------------------------------
  // `wsl --list --online`
  // ---------------------------------------------------------------------

  /** The first column of one line of the online catalogue, unless the line
      is blank or mentions NAME. */
  function OnlineName(line: string): (r: Option<string>)
    ensures r.Some? ==> r.value != [] && NoneIn(r.value, ColumnSeparators)
  {
    if AllWhiteSpace(line) then None
    else
      var parts := Split(line, ColumnSeparators);
      if |parts| > 0 && !Contains(line, "NAME") then Some(parts[0]) else None
  }

  /** The foreach loop of GetAvailableDistributionsAsync over a block of lines. */
  function OnlineNames(lines: seq<string>): (names: seq<string>)
    ensures |names| <= |lines|
  {
    Collect(lines, OnlineName)
  }

  /** A name the catalogue parsers report: a non-empty word. */
  predicate Name(s: string) {
    s != [] && NoneIn(s, ColumnSeparators)
  }

  /** Every reported name is a non-empty word taken from one of the lines. */
  lemma OnlineNamesWords(lines: seq<string>)
    ensures forall k :: 0 <= k < |OnlineNames(lines)| ==> Name(OnlineNames(lines)[k])
  {
    CollectSound(lines, OnlineName);
  }

  /** GetAvailableDistributionsAsync as written: the first non-empty line is
      skipped as the header, every later line gives its first column. */
  function ParseOnlineList(output: string): (names: seq<string>)
    ensures |names| < |Split(output, LineBreaks)| || names == []
  {
    var lines := Split(output, LineBreaks);
    if |lines| == 0 then [] else OnlineNames(lines[1..])
  }

  /** One catalogue row: the distribution's install name, padding, and its
      friendly name (which may hold spaces). */
  datatype CatalogEntry = CatalogEntry(name: string, gap: string, friendlyName: string)

  function CatalogLine(e: CatalogEntry): string {
    e.name + e.gap + e.friendlyName
  }

  predicate ValidEntry(e: CatalogEntry) {
    && Token(e.name) && Spaces(e.gap) && NoneIn(e.friendlyName, LineBreaks)
    && !Contains(e.name, "NAME") && !Contains(e.friendlyName, "NAME")
  }

  function CatalogLines(es: seq<CatalogEntry>): (lines: seq<string>)
    ensures |lines| == |es|
  {
    seq(|es|, k requires 0 <= k < |es| => CatalogLine(es[k]))
  }

  function EntryNames(es: seq<CatalogEntry>): (names: seq<string>)
    ensures |names| == |es|
  {
    seq(|es|, k requires 0 <= k < |es| => es[k].name)
  }

  /** A catalogue row yields its install name. */
  lemma CatalogLineName(e: CatalogEntry)
    requires ValidEntry(e)
    ensures OnlineName(CatalogLine(e)) == Some(e.name)
    ensures CatalogLine(e) != [] && NoneIn(CatalogLine(e), LineBreaks)
  {
    var line := CatalogLine(e);
    assert line[0] == e.name[0];
    assert !AllWhiteSpace(line);
    ContainsAcrossSpaces(e.name, e.gap, e.friendlyName, "NAME");
    SplitGap(e.name, e.gap, e.friendlyName, ColumnSeparators);
    SplitWord(e.name, ColumnSeparators);
  }

  lemma CatalogNames(es: seq<CatalogEntry>)
    requires forall k :: 0 <= k < |es| ==> ValidEntry(es[k])
    ensures OnlineNames(CatalogLines(es)) == EntryNames(es)
  {
    forall k | 0 <= k < |es|
      ensures OnlineName(CatalogLines(es)[k]) == Some(EntryNames(es)[k])
    {
      CatalogLineName(es[k]);
    }
    CollectAll(CatalogLines(es), OnlineName, EntryNames(es));
  }

  lemma CatalogLinesFacts(es: seq<CatalogEntry>)
    requires forall k :: 0 <= k < |es| ==> ValidEntry(es[k])
    ensures SingleLines(CatalogLines(es))
    ensures forall k :: 0 <= k < |es| ==> CatalogLines(es)[k] != []
  {
    forall k | 0 <= k < |es|
      ensures CatalogLines(es)[k] != [] && NoneIn(CatalogLines(es)[k], LineBreaks)
    {
      CatalogLineName(es[k]);
    }
  }

  /** When the column-title line comes first, the parser as written lists
      exactly the catalogue's install names, in order. */
  lemma OnlineListHeaderFirst(header: string, es: seq<CatalogEntry>)
    requires header != [] && NoneIn(header, LineBreaks)
    requires forall k :: 0 <= k < |es| ==> ValidEntry(es[k])
    ensures ParseOnlineList(JoinLines([header] + CatalogLines(es))) == EntryNames(es)
  {
    var lines := [header] + CatalogLines(es);
    CatalogLinesFacts(es);
    SplitJoinLines(lines);
    NonEmptyAppend([header], CatalogLines(es));
    NonEmptyAll(CatalogLines(es));
    assert NonEmpty([header]) == [header];
    CatalogNames(es);
  }

  /** The column-title line of the catalogue: the first line mentioning NAME. */
  function HeaderIndex(lines: seq<string>): (r: Option<nat>)
    ensures r.Some? ==> r.value < |lines| && Contains(lines[r.value], "NAME")
    ensures r.Some? ==> forall j :: 0 <= j < r.value ==> !Contains(lines[j], "NAME")
    ensures r.None? ==> forall j :: 0 <= j < |lines| ==> !Contains(lines[j], "NAME")
  {
    if |lines| == 0 then None
    else if Contains(lines[0], "NAME") then Some(0)
    else
      match HeaderIndex(lines[1..])
      case Some(i) => Some(i + 1)
      case None => None
  }

  /** GetAvailableDistributionsAsync as evidently intended: the catalogue
      rows are the lines after the column-title line; when there is no such
      line, the first line is skipped as before. */
  function ParseOnlineListCorrected(output: string): (names: seq<string>)
    ensures |names| < |Split(output, LineBreaks)| || names == []
  {
    var lines := Split(output, LineBreaks);
    match HeaderIndex(lines)
    case Some(i) => OnlineNames(lines[i + 1..])
    case None => if |lines| == 0 then [] else OnlineNames(lines[1..])
  }

  /** Every name either parser reports is a non-empty word. */
  lemma ParsedNamesWords(output: string)
    ensures forall k :: 0 <= k < |ParseOnlineList(output)| ==> Name(ParseOnlineList(output)[k])
    ensures forall k :: 0 <= k < |ParseOnlineListCorrected(output)| ==> Name(ParseOnlineListCorrected(output)[k])
  {
    var lines := Split(output, LineBreaks);
    if |lines| > 0 {
      OnlineNamesWords(lines[1..]);
    }
    match HeaderIndex(lines)
    case Some(i) => OnlineNamesWords(lines[i + 1..]);
    case None =>
  }

  /** The lines of a catalogue listing: introductory text without a column
      title, the column-title line, then one line per entry. */
  function CatalogOutput(preamble: seq<string>, header: string, es: seq<CatalogEntry>): string {
    JoinLines(preamble + [header] + CatalogLines(es))
  }

  predicate WellFormedCatalog(preamble: seq<string>, header: string, es: seq<CatalogEntry>) {
    && SingleLines(preamble) && (forall k :: 0 <= k < |preamble| ==> !Contains(preamble[k], "NAME"))
    && NoneIn(header, LineBreaks) && Contains(header, "NAME")
    && (forall k :: 0 <= k < |es| ==> ValidEntry(es[k]))
  }

  /** The non-empty lines the catalogue output splits into. */
  lemma CatalogSplit(preamble: seq<string>, header: string, es: seq<CatalogEntry>)
    requires WellFormedCatalog(preamble, header, es)
    ensures header != []
    ensures Split(CatalogOutput(preamble, header, es), LineBreaks)
         == NonEmpty(preamble) + [header] + CatalogLines(es)
  {
    if header == [] {
      ContainsNeedsLength(header, "NAME");
    }
    var cl := CatalogLines(es);
    CatalogLinesFacts(es);
    var lines := preamble + [header] + cl;
    assert SingleLines(lines) by {
      forall k | 0 <= k < |lines|
        ensures NoneIn(lines[k], LineBreaks)
      {
        if k < |preamble| {
          assert lines[k] == preamble[k];
        } else if k > |preamble| {
          assert lines[k] == cl[k - |preamble| - 1];
        }
      }
    }
    SplitJoinLines(lines);
    NonEmptyAppend(preamble + [header], cl);
    NonEmptyAppend(preamble, [header]);
    NonEmptyAll(cl);
    assert NonEmpty([header]) == [header];
  }

  /** The corrected parser lists exactly the catalogue's install names,
      whatever introductory text comes before the column titles. */
  lemma OnlineListCorrectedCatalog(preamble: seq<string>, header: string, es: seq<CatalogEntry>)
    requires WellFormedCatalog(preamble, header, es)
    ensures ParseOnlineListCorrected(CatalogOutput(preamble, header, es)) == EntryNames(es)
  {
    CatalogSplit(preamble, header, es);
    var p := NonEmpty(preamble);
    var lines := p + [header] + CatalogLines(es);
    assert forall j :: 0 <= j < |p| ==> !Contains(lines[j], "NAME") by {
      forall j | 0 <= j < |p|
        ensures !Contains(lines[j], "NAME")
      {
        assert lines[j] == p[j];
        assert p[j] in preamble;
      }
    }
    assert lines[|p|] == header;
    assert HeaderIndex(lines) == Some(|p|);
    assert lines[|p| + 1..] == CatalogLines(es);
    CatalogNames(es);
  }

  /** The parser as written skips only the first non-empty line, so every
      later line of introductory text gives its first word as a name. */
  lemma OnlineListAsWrittenCatalog(preamble: seq<string>, header: string, es: seq<CatalogEntry>)
    requires WellFormedCatalog(preamble, header, es) && NonEmpty(preamble) != []
    ensures ParseOnlineList(CatalogOutput(preamble, header, es))
         == OnlineNames(NonEmpty(preamble)[1..]) + EntryNames(es)
  {
    var p, cl := NonEmpty(preamble), CatalogLines(es);
    var lines := Split(CatalogOutput(preamble, header, es), LineBreaks);
    assert lines == p + [header] + cl by {
      CatalogSplit(preamble, header, es);
    }
    assert lines[1..] == (p[1..] + [header]) + cl;
    assert OnlineNames(p[1..] + [header]) == OnlineNames(p[1..]) by {
      CollectAppend(p[1..], [header], OnlineName);
      CollectOne(header, OnlineName);
    }
    assert OnlineNames(lines[1..]) == OnlineNames(p[1..] + [header]) + OnlineNames(cl) by {
      CollectAppend(p[1..] + [header], cl, OnlineName);
    }
    CatalogNames(es);
  }

  /** The second line of introduction `wsl --list --online` prints before
      its table, and the table's column titles. */
  const CatalogNote: string := "Install" + " " + "using 'wsl.exe --install <Distro>'."
  const CatalogHeader: string := "NAME" + "                            " + "FRIENDLY NAME"

  /** A first line of introduction: any text on one line without a column
      title (the tool prints "The following is a list of valid
      distributions that can be installed."). */
  predicate IntroLine(intro: string) {
    intro != [] && NoneIn(intro, LineBreaks) && !Contains(intro, "NAME")
  }

  /** The catalogue output the tool really prints: two lines of
      introduction, a blank line, the column titles, then the rows. */
  function RealCatalogOutput(intro: string, es: seq<CatalogEntry>): string {
    CatalogOutput([intro, CatalogNote, ""], CatalogHeader, es)
  }

  lemma NoteLineFacts()
    ensures CatalogNote != [] && NoneIn(CatalogNote, LineBreaks) && !Contains(CatalogNote, "NAME")
  {
    NoteSingleLine();
    assert !Contains(CatalogNote, "NAME") by {
      NoteWithoutN();
      NotContainsMissingChar(CatalogNote, "NAME", 0);
    }
  }

  lemma NoteSingleLine()
    ensures NoneIn(CatalogNote, LineBreaks)
  {
  }

  lemma NoteWithoutN()
    ensures 'N' !in CatalogNote
  {
  }

  lemma HeaderLineFacts()
    ensures NoneIn(CatalogHeader, LineBreaks) && Contains(CatalogHeader, "NAME")
  {
    assert CatalogHeader[0..][..4] == "NAME";
    ContainsAt(CatalogHeader, "NAME", 0);
  }

  lemma RealCatalogFacts(intro: string, es: seq<CatalogEntry>)
    requires IntroLine(intro)
    requires forall k :: 0 <= k < |es| ==> ValidEntry(es[k])
    ensures WellFormedCatalog([intro, CatalogNote, ""], CatalogHeader, es)
    ensures NonEmpty([intro, CatalogNote, ""]) == [intro, CatalogNote]
  {
    NoteLineFacts();
    PreambleFacts(intro, CatalogNote);
    HeaderLineFacts();
  }

  /** Two lines of introduction and a blank line: single lines, no column
      title, and the blank one is dropped. */
  lemma PreambleFacts(intro: string, note: string)
    requires IntroLine(intro) && IntroLine(note)
    ensures SingleLines([intro, note, ""])
    ensures forall k :: 0 <= k < 3 ==> !Contains([intro, note, ""][k], "NAME")
    ensures NonEmpty([intro, note, ""]) == [intro, note]
  {
    var preamble := [intro, note, ""];
    assert !Contains("", "NAME") && NoneIn("", LineBreaks) by {
      ContainsNeedsLength("", "NAME");
    }
    assert NonEmpty(preamble) == [intro, note] by {
      assert preamble == [intro, note] + [""];
      NonEmptyAppend([intro, note], [""]);
      NonEmptyAll([intro, note]);
      assert NonEmpty([""]) == [];
    }
  }

  /** The second line of introduction reads as a distribution "Install". */
  lemma CatalogNoteName()
    ensures OnlineNames([CatalogNote]) == ["Install"]
  {
    assert OnlineName(CatalogNote) == Some("Install") by {
      NoteFirstWord();
      NoteLineFacts();
      assert !AllWhiteSpace(CatalogNote) by {
        assert CatalogNote[0] == 'I';
      }
    }
    CollectOne(CatalogNote, OnlineName);
  }

  lemma NoteFirstWord()
    ensures |Split(CatalogNote, ColumnSeparators)| > 0
    ensures Split(CatalogNote, ColumnSeparators)[0] == "Install"
  {
    SplitFirstWord("Install", " ", "using 'wsl.exe --install <Distro>'.", ColumnSeparators);
  }

  /** With the introduction the tool really prints, the parser as written
      reports a distribution called "Install" ahead of the real ones. */
  lemma OnlineListInstallLeak(intro: string, es: seq<CatalogEntry>)
    requires IntroLine(intro)
    requires forall k :: 0 <= k < |es| ==> ValidEntry(es[k])
    ensures ParseOnlineList(RealCatalogOutput(intro, es)) == ["Install"] + EntryNames(es)
  {
    RealCatalogFacts(intro, es);
    OnlineListAsWrittenCatalog([intro, CatalogNote, ""], CatalogHeader, es);
    assert [intro, CatalogNote][1..] == [CatalogNote];
    CatalogNoteName();
  }

  /** On the same output the corrected parser reports only the real ones. */
  lemma OnlineListCorrectedReal(intro: string, es: seq<CatalogEntry>)
    requires IntroLine(intro)
    requires forall k :: 0 <= k < |es| ==> ValidEntry(es[k])
    ensures ParseOnlineListCorrected(RealCatalogOutput(intro, es)) == EntryNames(es)
  {
    RealCatalogFacts(intro, es);
    OnlineListCorrectedCatalog([intro, CatalogNote, ""], CatalogHeader, es);
  }
}
