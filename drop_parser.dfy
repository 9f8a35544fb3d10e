/**
 * `_parse_drop_paths` of `glitch_hub/tomato_gui.py`: the character-driven
 * tokenizer that splits a drag-and-drop string into paths. Paths are
 * separated by spaces, and a path that holds spaces is wrapped in braces.
 */
module DropParser {
  import opened Strings

  /** The tokenizer's state: the paths found so far, the path being read, and whether a brace is open. */
  datatype Tokenizer = Tokenizer(paths: seq<string>, current: string, inBrace: bool)

  const Init: Tokenizer := Tokenizer([], "", false)

  /** `paths` with `current` appended when `current` is not empty. */
  function Flush(paths: seq<string>, current: string): seq<string> {
    if current != "" then paths + [current] else paths
  }

  /**
   * What one character does to the state: the four branches of the loop body.
   * A step records at most one path, and that path is the one being read.
   */
  function Step(st: Tokenizer, ch: char): (next: Tokenizer)
    ensures st.paths <= next.paths && |next.paths| <= |st.paths| + 1
    ensures |next.paths| == |st.paths| + 1 ==> next.paths[|st.paths|] == st.current && st.current != ""
    ensures IsBrace(ch) ==> next.current == "" && next.inBrace == (ch == '{')
    ensures !IsBrace(ch) && (ch != ' ' || st.inBrace) ==> next == Tokenizer(st.paths, st.current + [ch], st.inBrace)
  {
    if ch == '{' then Tokenizer(st.paths, "", true)
    else if ch == '}' then Tokenizer(Flush(st.paths, st.current), "", false)
    else if ch == ' ' && !st.inBrace then Tokenizer(Flush(st.paths, st.current), "", st.inBrace)
    else Tokenizer(st.paths, st.current + [ch], st.inBrace)
  }

  /** The state after reading every character of `s`, from the first to the last; no path is ever lost. */
  function Run(st: Tokenizer, s: string): (r: Tokenizer)
    ensures st.paths <= r.paths
    decreases s
  {
    if s == [] then st
    else
      var next := Step(st, s[0]);
      var r := Run(next, s[1..]);
      assert st.paths == r.paths[..|st.paths|] by {
        assert next.paths[..|st.paths|] == st.paths;
        assert r.paths[..|next.paths|] == next.paths;
      }
      r
  }

  /** After the loop, a path still being read is kept. */
  function Finish(st: Tokenizer): seq<string> {
    Flush(st.paths, st.current)
  }

  /** The paths the tokenizer finds in `s`: none of them empty, none holding a brace. */
  function Tokens(s: string): (paths: seq<string>)
    ensures forall i :: 0 <= i < |paths| ==> paths[i] != "" && NoBraces(paths[i])
  {
    assert NoBraces("");
    RunPreservesClean(Init, s);
    Finish(Run(Init, s))
  }

  /** `_parse_drop_paths(raw)`, which first strips white space from both ends. */
  function DropTokens(raw: string): (paths: seq<string>)
    ensures forall i :: 0 <= i < |paths| ==> paths[i] != "" && NoBraces(paths[i])
  {
    Tokens(Strip(raw))
  }

  /** Stripping the text before handing it over, as the Tomato window's drop handler does, changes nothing. */
  lemma DropTokensOfStripped(raw: string)
    ensures DropTokens(Strip(raw)) == DropTokens(raw)
  {
    TrimIdempotent(raw, IsSpace);
  }

  /** Every path found is non-empty and brace-free, and so is the path being read. */
  predicate Clean(st: Tokenizer) {
    && (forall i :: 0 <= i < |st.paths| ==> st.paths[i] != "" && NoBraces(st.paths[i]))
    && NoBraces(st.current)
  }

  lemma {:induction false} RunPreservesClean(st: Tokenizer, s: string)
    requires Clean(st)
    ensures Clean(Run(st, s))
    decreases s
  {
    if s != [] {
      var next := Step(st, s[0]);
      if !IsBrace(s[0]) {
        assert NoBraces(st.current + [s[0]]) by {
          assert forall i :: 0 <= i < |st.current| ==> (st.current + [s[0]])[i] == st.current[i];
        }
      }
      assert Clean(next);
      RunPreservesClean(next, s[1..]);
    }
  }

  /** `_parse_drop_paths(raw)`, the loop as written. */
  method ParseDropPaths(raw: string) returns (paths: seq<string>)
    ensures paths == DropTokens(raw)
    ensures forall i :: 0 <= i < |paths| ==> paths[i] != "" && NoBraces(paths[i])
  {
    var s := Strip(raw);
    paths := [];
    var current := "";
    var inBrace := false;
    for i := 0 to |s|
      invariant Run(Tokenizer(paths, current, inBrace), s[i..]) == Run(Init, s)
    {
      assert s[i..][1..] == s[i + 1..];
      var ch := s[i];
      if ch == '{' {
        inBrace := true;
        current := "";
      } else if ch == '}' {
        inBrace := false;
        if current != "" {
          paths := paths + [current];
          current := "";
        }
      } else if ch == ' ' && !inBrace {
        if current != "" {
          paths := paths + [current];
          current := "";
        }
      } else {
        current := current + [ch];
      }
    }
    assert s[|s|..] == [];
    if current != "" {
      paths := paths + [current];
    }
  }

  /** Reading `a + b` is reading `a`, then `b`. */
  lemma {:induction false} RunAppend(st: Tokenizer, a: string, b: string)
    ensures Run(st, a + b) == Run(Run(st, a), b)
    decreases a
  {
    if a != [] {
      assert (a + b)[0] == a[0];
      assert (a + b)[1..] == a[1..] + b;
      RunAppend(Step(st, a[0]), a[1..], b);
    } else {
      assert a + b == b;
    }
  }

  /** The paths already found are kept, in front of everything found later. */
  lemma {:induction false} RunKeepsPaths(st: Tokenizer, s: string)
    ensures var r, alone := Run(st, s), Run(Tokenizer([], st.current, st.inBrace), s);
      r == Tokenizer(st.paths + alone.paths, alone.current, alone.inBrace)
    decreases s
  {
    if s != [] {
      var next := Step(st, s[0]);
      var freshNext := Step(Tokenizer([], st.current, st.inBrace), s[0]);
      assert next.paths == st.paths + freshNext.paths;
      RunKeepsPaths(next, s[1..]);
      RunKeepsPaths(freshNext, s[1..]);
      var tail := Run(Tokenizer([], freshNext.current, freshNext.inBrace), s[1..]);
      assert st.paths + (freshNext.paths + tail.paths) == (st.paths + freshNext.paths) + tail.paths;
    }
  }

  /**
   * A brace-free string joins the path being read, as a whole, when a brace
   * is open or when it holds no space: inside braces a space is an ordinary character.
   */
  lemma {:induction false} RunAccumulates(st: Tokenizer, s: string)
    requires NoBraces(s) && (st.inBrace || ' ' !in s)
    ensures Run(st, s) == Tokenizer(st.paths, st.current + s, st.inBrace)
    decreases s
  {
    if s != [] {
      RunAccumulates(Step(st, s[0]), s[1..]);
      assert st.current + [s[0]] + s[1..] == st.current + s;
    }
  }

  /** `c` glued to the front of the first piece. */
  function Glue(c: string, parts: seq<string>): seq<string>
    requires |parts| >= 1
  {
    [c + parts[0]] + parts[1..]
  }

  /** Outside braces, a brace-free string gives its space-separated fields, empty ones dropped. */
  lemma {:induction false} RunOutsideBraces(st: Tokenizer, s: string)
    requires !st.inBrace && NoBraces(s)
    ensures Finish(Run(st, s)) == st.paths + NonEmpty(Glue(st.current, Split(s, ' ')))
    decreases s
  {
    if s == [] {
      assert Split(s, ' ') == [[]];
      assert st.current + [] == st.current;
    } else {
      RunOutsideBraces(Step(st, s[0]), s[1..]);
      if s[0] == ' ' {
        SpaceStep(st, s);
      } else {
        CharStep(st, s);
      }
    }
  }

  /** A space outside braces ends the path being read: one step of `RunOutsideBraces`. */
  lemma SpaceStep(st: Tokenizer, s: string)
    requires !st.inBrace && s != [] && s[0] == ' '
    requires var next := Step(st, s[0]);
      Finish(Run(next, s[1..])) == next.paths + NonEmpty(Glue(next.current, Split(s[1..], ' ')))
    ensures Finish(Run(st, s)) == st.paths + NonEmpty(Glue(st.current, Split(s, ' ')))
  {
    var rest := Split(s[1..], ' ');
    GlueAfterSpace(st.current, s, rest);
    NonEmptyAppend([st.current], rest);
  }

  /** The pieces after a leading space, glued to `c`: `c` alone, then the pieces of the tail. */
  lemma GlueAfterSpace(c: string, s: string, rest: seq<string>)
    requires s != [] && s[0] == ' ' && rest == Split(s[1..], ' ')
    ensures Glue(c, Split(s, ' ')) == [c] + rest
    ensures Glue("", rest) == rest
  {
    var parts := Split(s, ' ');
    assert parts == [[]] + rest;
    assert parts[1..] == rest;
    assert c + [] == c;
    assert "" + rest[0] == rest[0];
    assert [rest[0]] + rest[1..] == rest;
  }

  /** Any other character outside braces joins the path being read: one step of `RunOutsideBraces`. */
  lemma CharStep(st: Tokenizer, s: string)
    requires !st.inBrace && s != [] && s[0] != ' ' && !IsBrace(s[0])
    requires var next := Step(st, s[0]);
      Finish(Run(next, s[1..])) == next.paths + NonEmpty(Glue(next.current, Split(s[1..], ' ')))
    ensures Finish(Run(st, s)) == st.paths + NonEmpty(Glue(st.current, Split(s, ' ')))
  {
    GlueAfterChar(st.current, s);
  }

  /** Gluing `c` to the pieces of a string that starts with another character. */
  lemma GlueAfterChar(c: string, s: string)
    requires s != [] && s[0] != ' '
    ensures Glue(c, Split(s, ' ')) == Glue(c + [s[0]], Split(s[1..], ' '))
  {
    var parts, rest := Split(s, ' '), Split(s[1..], ' ');
    assert parts == [[s[0]] + rest[0]] + rest[1..];
    assert c + ([s[0]] + rest[0]) == (c + [s[0]]) + rest[0];
  }

  /** Without braces the tokenizer is `[p for p in s.split(" ") if p]`. */
  lemma TokensWithoutBraces(s: string)
    requires NoBraces(s)
    ensures Tokens(s) == NonEmpty(Split(s, ' '))
  {
    RunOutsideBraces(Init, s);
    var parts := Split(s, ' ');
    assert "" + parts[0] == parts[0];
    assert Glue("", parts) == parts;
  }

  /** A braced span is one path, spaces and all, and reading goes on after it as from the start. */
  lemma TokensBraced(p: string, rest: string)
    requires NoBraces(p)
    ensures Tokens("{" + p + "}" + rest) == Flush([], p) + Tokens(rest)
  {
    var open := Tokenizer([], "", true);
    var closed := Tokenizer(Flush([], p), "", false);
    assert "{" + p + "}" + rest == "{" + (p + ("}" + rest));
    RunAppend(open, p, "}" + rest);
    RunAccumulates(open, p);
    assert "" + p == p;
    RunKeepsPaths(closed, rest);
  }

  /** An opening brace throws away the path being read; paths already found stay. */
  lemma OpenBraceDiscards(st: Tokenizer, a: string, b: string)
    ensures Run(st, a + "{" + b) == Run(Tokenizer(Run(st, a).paths, "", true), b)
  {
    RunAppend(st, a, "{" + b);
    assert a + "{" + b == a + ("{" + b);
  }

  /** A brace left open at the end still gives its path, if it is not empty. */
  lemma UnclosedSpan(p: string)
    requires NoBraces(p)
    ensures Tokens("{" + p) == Flush([], p)
  {
    RunAccumulates(Tokenizer([], "", true), p);
    assert "" + p == p;
  }

  /** A braced path with spaces, then a plain one: `{a b} c` gives `a b` and `c`. */
  lemma BracedThenPlain(p: string, q: string)
    requires p != "" && NoBraces(p)
    requires q != "" && NoBraces(q) && ' ' !in q
    ensures Tokens("{" + p + "}" + (" " + q)) == [p, q]
  {
    TokensBraced(p, " " + q);
    assert NoBraces(" " + q) by {
      assert forall i :: 1 <= i < |" " + q| ==> (" " + q)[i] == q[i - 1];
    }
    TokensWithoutBraces(" " + q);
    assert [] + [' '] + q == " " + q;
    SplitAfterPiece([], ' ', q);
    SplitWithoutSep(q, ' ');
    assert NonEmpty([[], q]) == [q];
  }

  /** Characters before an opening brace are lost: `ab{cd}` gives only `cd`. */
  lemma PlainThenBraced(a: string, b: string)
    requires NoBraces(a) && ' ' !in a
    requires b != "" && NoBraces(b)
    ensures Tokens(a + "{" + b + "}") == [b]
  {
    assert a + "{" + b + "}" == a + "{" + (b + "}");
    OpenBraceDiscards(Init, a, b + "}");
    RunAccumulates(Init, a);
    var open := Tokenizer([], "", true);
    RunAppend(open, b, "}");
    RunAccumulates(open, b);
    assert "" + b == b;
  }
}
