/**
 * How wsl.exe cuts the single argument string the application hands to
 * ProcessStartInfo.Arguments back into separate arguments: the Windows
 * command-line convention. White space outside double quotes separates
 * arguments; a double quote switches quoting on or off and is dropped;
 * backslashes are literal unless a run of them precedes a double quote,
 * in which case every pair becomes one backslash and an odd one left over
 * turns the quote into a literal character.
 *
 * The application builds argument strings from plain words and from
 * double-quoted words. This module states when such a string comes back
 * as exactly the words it was built from.
 */
module CommandLine {

  /** The lexer's state: finished arguments, the current argument's text,
      whether a current argument has started, whether quoting is on, and
      the run of backslashes not yet emitted. */
  datatype Lexer = Lexer(args: seq<string>, cur: string, open: bool, quoted: bool, slashes: nat)

  function Backslashes(n: nat): (s: string)
    ensures |s| == n && forall i :: 0 <= i < n ==> s[i] == '\\'
  {
    if n == 0 then [] else Backslashes(n - 1) + "\\"
  }

  predicate IsSeparator(c: char) {
    c == ' ' || c == '\t'
  }

  /** A lexer with the given finished arguments and nothing in progress. */
  function Fresh(args: seq<string>): Lexer {
    Lexer(args, [], false, false, 0)
  }

  /** The text the current argument has once pending backslashes are
      emitted literally. */
  function Pending(st: Lexer): string {
    st.cur + Backslashes(st.slashes)
  }

  function Step(st: Lexer, c: char): Lexer {
    if c == '\\' then
      st.(slashes := st.slashes + 1, open := true)
    else if c == '"' then
      if st.slashes % 2 == 0 then
        st.(cur := st.cur + Backslashes(st.slashes / 2), slashes := 0, quoted := !st.quoted, open := true)
      else
        st.(cur := st.cur + Backslashes(st.slashes / 2) + "\"", slashes := 0, open := true)
    else if IsSeparator(c) && !st.quoted then
      if st.open then Fresh(st.args + [Pending(st)]) else st
    else
      st.(cur := Pending(st) + [c], slashes := 0, open := true)
  }

  function Feed(st: Lexer, s: string): Lexer
    decreases |s|
  {
    if |s| == 0 then st else Feed(Step(st, s[0]), s[1..])
  }

  function Finish(st: Lexer): seq<string> {
    if st.open then st.args + [Pending(st)] else st.args
  }

  /** The arguments a program receives for the command-line text `s`. */
  function SplitArguments(s: string): seq<string> {
    Finish(Feed(Fresh([]), s))
  }

  lemma {:induction false} FeedAppend(st: Lexer, a: string, b: string)
    ensures Feed(st, a + b) == Feed(Feed(st, a), b)
    decreases |a|
  {
    if |a| == 0 {
      assert a + b == b;
    } else {
      assert (a + b)[0] == a[0];
      assert (a + b)[1..] == a[1..] + b;
      FeedAppend(Step(st, a[0]), a[1..], b);
    }
  }

  /** A word without double quotes (and without separators, unless quoting
      is on) is added to the current argument character for character. */
  lemma {:induction false} FeedWord(st: Lexer, w: string)
    requires forall i :: 0 <= i < |w| ==> w[i] != '"'
    requires !st.quoted ==> forall i :: 0 <= i < |w| ==> !IsSeparator(w[i])
    ensures Feed(st, w).args == st.args
    ensures Feed(st, w).quoted == st.quoted
    ensures Feed(st, w).open == (st.open || |w| > 0)
    ensures Pending(Feed(st, w)) == Pending(st) + w
    ensures |w| > 0 && w[|w| - 1] != '\\' ==> Feed(st, w).slashes == 0
    decreases |w|
  {
    if |w| > 0 {
      var next := Step(st, w[0]);
      assert Pending(next) == Pending(st) + [w[0]] by {
        if w[0] == '\\' {
          assert Backslashes(st.slashes + 1) == Backslashes(st.slashes) + "\\";
        }
      }
      FeedWord(next, w[1..]);
      assert [w[0]] + w[1..] == w;
      if |w| == 1 {
        assert w[1..] == [];
      } else {
        assert w[1..][|w[1..]| - 1] == w[|w| - 1];
      }
    }
  }

  /** One argument as the application writes it: a bare word, or a word
      between double quotes. */
  datatype Arg = Bare(text: string) | Quoted(text: string)

  function Render(a: Arg): string {
    match a
    case Bare(t) => t
    case Quoted(t) => "\"" + t + "\""
  }

  /** Arguments joined by single spaces, as string interpolation writes
      them. */
  function Join(args: seq<Arg>): string
    decreases |args|
  {
    if |args| == 0 then []
    else if |args| == 1 then Render(args[0])
    else Render(args[0]) + " " + Join(args[1..])
  }

  predicate NoQuote(t: string) {
    forall i :: 0 <= i < |t| ==> t[i] != '"'
  }

  /** An argument that comes back as written: a bare word is non-empty and
      free of white space and quotes; a quoted word is free of quotes and
      does not end in a backslash (which would escape the closing quote). */
  predicate Intact(a: Arg) {
    NoQuote(a.text) &&
    match a
    case Bare(t) => |t| > 0 && forall i :: 0 <= i < |t| ==> !IsSeparator(t[i])
    case Quoted(t) => |t| == 0 || t[|t| - 1] != '\\'
  }

  function Texts(args: seq<Arg>): (ts: seq<string>)
    ensures |ts| == |args|
    decreases |args|
  {
    if |args| == 0 then [] else [args[0].text] + Texts(args[1..])
  }

  /** Feeding one intact argument to a lexer with nothing in progress
      leaves that argument, complete, in progress. */
  lemma FeedArg(prior: seq<string>, a: Arg)
    requires Intact(a)
    ensures Feed(Fresh(prior), Render(a)).args == prior
    ensures Feed(Fresh(prior), Render(a)).open
    ensures !Feed(Fresh(prior), Render(a)).quoted
    ensures Pending(Feed(Fresh(prior), Render(a))) == a.text
  {
    var st := Fresh(prior);
    match a
    case Bare(t) =>
      FeedWord(st, t);
    case Quoted(t) =>
      var quoting := Step(st, '"');
      assert quoting == st.(quoted := true, open := true);
      assert Feed(st, "\"") == quoting;
      FeedWord(quoting, t);
      var inside := Feed(quoting, t);
      assert inside.slashes == 0;
      assert Feed(inside, "\"") == Step(inside, '"');
      FeedAppend(st, "\"", t);
      FeedAppend(st, "\"" + t, "\"");
  }

  /** A space after a started argument outside quotes completes it. */
  lemma FeedSpace(st: Lexer)
    requires st.open && !st.quoted
    ensures Feed(st, " ") == Fresh(st.args + [Pending(st)])
  {
  }

  /** One intact argument on its own is taken as exactly its text. */
  lemma FeedLast(prior: seq<string>, a: Arg)
    requires Intact(a)
    ensures Finish(Feed(Fresh(prior), Render(a))) == prior + [a.text]
  {
    FeedArg(prior, a);
  }

  /** An intact argument and the space after it move its text to the
      finished arguments and leave nothing in progress. */
  lemma FeedFirst(prior: seq<string>, args: seq<Arg>)
    requires |args| > 1 && Intact(args[0])
    ensures Feed(Fresh(prior), Join(args)) == Feed(Fresh(prior + [args[0].text]), Join(args[1..]))
  {
    var st := Feed(Fresh(prior), Render(args[0]));
    assert Feed(st, " ") == Fresh(prior + [args[0].text]) by {
      FeedArg(prior, args[0]);
      FeedSpace(st);
    }
    assert Join(args) == Render(args[0]) + " " + Join(args[1..]);
    FeedAppend(Fresh(prior), Render(args[0]), " ");
    FeedAppend(Fresh(prior), Render(args[0]) + " ", Join(args[1..]));
  }

  lemma TextsCons(args: seq<Arg>)
    requires |args| > 0
    ensures Texts(args) == [args[0].text] + Texts(args[1..])
  {
  }

  /** Intact arguments joined by spaces are taken apart into exactly their
      texts, after whatever arguments came before. */
  lemma {:induction false} FeedJoin(prior: seq<string>, args: seq<Arg>)
    requires |args| > 0
    requires forall i :: 0 <= i < |args| ==> Intact(args[i])
    ensures Finish(Feed(Fresh(prior), Join(args))) == prior + Texts(args)
    decreases |args|, 1
  {
    if |args| == 1 {
      FeedJoinOne(prior, args);
    } else {
      FeedJoinMore(prior, args);
    }
  }

  lemma FeedJoinOne(prior: seq<string>, args: seq<Arg>)
    requires |args| == 1 && Intact(args[0])
    ensures Finish(Feed(Fresh(prior), Join(args))) == prior + Texts(args)
  {
    assert Join(args) == Render(args[0]);
    assert Texts(args) == [args[0].text];
    FeedLast(prior, args[0]);
  }

  lemma {:induction false} FeedJoinMore(prior: seq<string>, args: seq<Arg>)
    requires |args| > 1
    requires forall i :: 0 <= i < |args| ==> Intact(args[i])
    ensures Finish(Feed(Fresh(prior), Join(args))) == prior + Texts(args)
    decreases |args|, 0
  {
    var next, rest := prior + [args[0].text], args[1..];
    var whole, tail := Feed(Fresh(prior), Join(args)), Feed(Fresh(next), Join(rest));
    assert whole == tail by {
      FeedFirst(prior, args);
    }
    assert Finish(tail) == next + Texts(rest) by {
      IntactTail(args);
      FeedJoin(next, rest);
    }
    assert next + Texts(rest) == prior + Texts(args) by {
      TextsCons(args);
      SnocCons(prior, args[0].text, Texts(rest));
    }
  }

  lemma IntactTail(args: seq<Arg>)
    requires |args| > 0
    requires forall i :: 0 <= i < |args| ==> Intact(args[i])
    ensures forall i :: 0 <= i < |args[1..]| ==> Intact(args[1..][i])
  {
  }

  lemma SnocCons(prior: seq<string>, x: string, rest: seq<string>)
    ensures (prior + [x]) + rest == prior + ([x] + rest)
  {
  }

  /** The round trip: a command line joined from intact arguments splits
      back into exactly those arguments' texts. */
  lemma JoinRoundTrip(args: seq<Arg>)
    requires forall i :: 0 <= i < |args| ==> Intact(args[i])
    ensures SplitArguments(Join(args)) == Texts(args)
  {
    if |args| == 0 {
      assert Join(args) == [];
    } else {
      FeedJoin([], args);
    }
  }
}
