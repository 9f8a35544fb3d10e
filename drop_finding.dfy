/**
 * The Data→Video window's drop handler (`_on_drop` in `app.py`) strips
 * braces from both ends of the dropped text and keeps what comes before the
 * first space. Tk wraps a dropped path that holds a space in braces, so such
 * a path is cut at its first space: `{/x/my file.bin}` selects `/x/my`.
 * The comment above the code says the intent is to take the first path,
 * which is what the Tomato window's tokenizer does; `FirstDroppedPath`
 * models that intended behaviour.
 */
module DropFinding {
  import opened Results
  import opened Strings
  import DropParser
  import DataToVideo

  /** Stripping braces from a braced string whose ends are not braces leaves its inside. */
  lemma TrimBraced(q: string)
    requires q != [] && !IsBrace(q[0]) && !IsBrace(q[|q| - 1])
    ensures Trim("{" + q + "}", IsBrace) == q
  {
    var s := "{" + q + "}";
    assert s[1..] == q + "}";
    assert TrimStart(s, IsBrace) == TrimStart(q + "}", IsBrace);
    assert (q + "}")[0] == q[0];
    assert (q + "}")[..|q|] == q;
  }

  /**
   * As written: a braced path `a b` whose first part `a` holds no space
   * selects only `a`, although `a b` was dropped.
   */
  lemma AsWrittenCutsBracedPath(a: string, b: string)
    requires a != [] && ' ' !in a && NoBraces(a) && NoBraces(b)
    requires b == [] || !IsBrace(b[|b| - 1])
    ensures DataToVideo.FirstDropPath("{" + (a + " " + b) + "}") == Some(a)
    ensures a != a + " " + b
  {
    var q := a + " " + b;
    assert q[0] == a[0];
    assert q[|q| - 1] == if b == [] then ' ' else b[|b| - 1];
    TrimBraced(q);
    SplitAfterPiece(a, ' ', b);
    assert a + [' '] + b == q;
  }

  /** `{/x/my file.bin}` is read as `/x/my`. */
  lemma AsWrittenExample()
    ensures DataToVideo.FirstDropPath("{" + ("/x/my" + " " + "file.bin") + "}") == Some("/x/my")
  {
    AsWrittenCutsBracedPath("/x/my", "file.bin");
  }

  /**
   * The intended choice: the first path the Tomato window's parser finds,
   * white space stripped first, braces and spaces handled.
   */
  function FirstDroppedPath(raw: string): (r: Option<string>)
    ensures r.Some? ==> r.value != "" && NoBraces(r.value)
    ensures r.None? <==> DropParser.DropTokens(raw) == []
  {
    var tokens := DropParser.DropTokens(raw);
    if tokens == [] then None else Some(tokens[0])
  }

  /** A braced path is selected whole, spaces and all. */
  lemma FixedKeepsBracedPath(p: string, rest: string)
    requires p != "" && NoBraces(p)
    ensures FirstDroppedPath("{" + p + "}" + rest) == Some(p)
  {
    var braced := "{" + p + "}";
    assert braced[0] == '{' && braced[|braced| - 1] == '}';
    assert TrimStart(braced + rest, IsSpace) == braced + rest by {
      assert (braced + rest)[0] == '{';
    }
    TrimEndAppend(braced, rest, IsSpace);
    assert Strip(braced + rest) == braced + TrimEnd(rest, IsSpace);
    DropParser.TokensBraced(p, TrimEnd(rest, IsSpace));
  }

  /**
   * Without braces, and with no white space at either end, the intended
   * choice is the one the rule as written makes.
   */
  lemma FixedAgreesWithoutBraces(raw: string)
    requires NoBraces(raw) && (raw == [] || (!IsSpace(raw[0]) && !IsSpace(raw[|raw| - 1])))
    ensures FirstDroppedPath(raw) == DataToVideo.FirstDropPath(raw)
  {
    assert Strip(raw) == raw;
    DropParser.TokensWithoutBraces(raw);
    var parts := Split(raw, ' ');
    if raw != [] {
      assert !IsBrace(raw[0]) && !IsBrace(raw[|raw| - 1]);
    }
    assert Trim(raw, IsBrace) == raw;
    SplitFirstPiece(raw, ' ');
    if parts[0] != [] {
      assert parts == [parts[0]] + parts[1..];
      assert NonEmpty(parts) == [parts[0]] + NonEmpty(parts[1..]);
    } else {
      assert raw == [];
      assert parts == [[]];
    }
  }
}
