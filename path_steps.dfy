/**
  The path language of main.go: `parsePathSteps` turns a dot path with optional bracket
  selectors (`servers[0].roles`, `items[*].meta`, `.[2]`) into steps, and
  `stepsContainLoop` tells whether a step list fans out.
 */
module PathSteps {
  import opened Wrappers
  import opened Text

  /** One step of a path: descend by key, descend by index, or fan out to every child. */
  datatype Step = Key(key: string) | Index(index: int) | All

  /** A bracket whose trimmed content is neither `*` nor an integer. */
  datatype ParseError = InvalidBracketSelection(inside: string)

  predicate StartsWithBracket(part: string) {
    |part| > 0 && part[0] == '['
  }

  predicate EndsWithBracket(part: string) {
    |part| > 0 && part[|part| - 1] == ']'
  }

  /** The step selected by the trimmed content of a bracket. */
  function BracketStep(inside: string): Result<Step, ParseError> {
    if inside == "*" then Ok(All)
    else
      match Atoi(inside)
      case Some(n) => Ok(Index(n))
      case None => Err(InvalidBracketSelection(inside))
  }

  /** `prefix` followed by the step the bracket selects, or the bracket's error. */
  function WithBracket(prefix: seq<Step>, b: Result<Step, ParseError>): Result<seq<Step>, ParseError> {
    match b
    case Ok(s) => Ok(prefix + [s])
    case Err(e) => Err(e)
  }

  /**
    The steps of one trimmed, nonempty token: a bracket-only token gives its bracket
    step; a token with `[` that ends in `]` gives Key(text before the first `[`), when
    that text is not empty, and then the bracket step; anything else is one Key step.
   */
  function TokenSteps(part: string): Result<seq<Step>, ParseError> {
    if StartsWithBracket(part) && EndsWithBracket(part) then
      WithBracket([], BracketStep(TrimSpace(part[1..|part| - 1])))
    else
      var lb := IndexOf(part, '[');
      if lb != -1 && EndsWithBracket(part) then
        var name := part[..lb];
        WithBracket(if name != "" then [Key(name)] else [], BracketStep(TrimSpace(part[lb + 1..|part| - 1])))
      else
        Ok([Key(part)])
  }

  /** The steps of the dot-separated tokens, in order; empty tokens are skipped. */
  function ParseTokens(parts: seq<string>): Result<seq<Step>, ParseError> {
    if parts == [] then Ok([])
    else
      match ParseTokens(parts[..|parts| - 1])
      case Err(e) => Err(e)
      case Ok(steps) =>
        var part := TrimSpace(parts[|parts| - 1]);
        if part == "" then Ok(steps) else AddToken(steps, part)
  }

  /** What `parsePathSteps` computes: no steps for a blank path or `.`. */
  function ParsePath(path: string): Result<seq<Step>, ParseError> {
    var p := TrimSpace(path);
    if p == "" || p == "." then Ok([]) else ParseTokens(Split(p, '.'))
  }

  /** One more token extends the parse of the tokens before it. */
  lemma ParseTokensStep(parts: seq<string>, i: nat, steps: seq<Step>)
    requires i < |parts| && ParseTokens(parts[..i]) == Ok(steps)
    ensures ParseTokens(parts[..i + 1]) ==
      (if TrimSpace(parts[i]) == "" then Ok(steps) else AddToken(steps, TrimSpace(parts[i])))
  {
    assert parts[..i + 1][..i] == parts[..i];
  }

  /** The first bad token decides the error: later tokens are not looked at. */
  lemma {:induction false} ParseTokensErrorStays(parts: seq<string>, n: nat, e: ParseError)
    requires n <= |parts| && ParseTokens(parts[..n]) == Err(e)
    ensures ParseTokens(parts) == Err(e)
    decreases |parts|
  {
    if n < |parts| {
      var init := parts[..|parts| - 1];
      assert init[..n] == parts[..n];
      ParseTokensErrorStays(init, n, e);
    } else {
      assert parts[..n] == parts;
    }
  }

  /** The steps after one more token: `steps` followed by the token's steps, or its error. */
  function AddToken(steps: seq<Step>, part: string): Result<seq<Step>, ParseError> {
    match TokenSteps(part)
    case Err(e) => Err(e)
    case Ok(more) => Ok(steps + more)
  }

  /**
    The body of the loop of `parsePathSteps` for one trimmed, nonempty token: the
    bracket-only case, the name-then-bracket case and the plain key case.
   */
  method AppendTokenSteps(steps: seq<Step>, part: string) returns (r: Result<seq<Step>, ParseError>)
    requires part != ""
    ensures r == AddToken(steps, part)
  {
    if StartsWithBracket(part) && EndsWithBracket(part) {
      var inside := TrimSpace(part[1..|part| - 1]);
      BracketOnlyToken(steps, part);
      if inside == "*" {
        return Ok(steps + [All]);
      }
      var n := Atoi(inside);
      if n.Some? {
        return Ok(steps + [Index(n.value)]);
      }
      return Err(InvalidBracketSelection(inside));
    }
    var lb := IndexOf(part, '[');
    if lb != -1 && EndsWithBracket(part) {
      var name := part[..lb];
      var out := steps;
      if name != "" {
        out := out + [Key(name)];
      }
      var inside := TrimSpace(part[lb + 1..|part| - 1]);
      NamedBracketToken(steps, part, lb, out);
      if inside == "*" {
        return Ok(out + [All]);
      }
      var n := Atoi(inside);
      if n.Some? {
        return Ok(out + [Index(n.value)]);
      }
      return Err(InvalidBracketSelection(inside));
    }
    PlainKeyToken(steps, part);
    return Ok(steps + [Key(part)]);
  }

  /** A token `[inside]`: the steps so far, then the selected step. */
  lemma BracketOnlyToken(steps: seq<Step>, part: string)
    requires StartsWithBracket(part) && EndsWithBracket(part)
    ensures |part| >= 2
    ensures AddToken(steps, part) == WithBracket(steps, BracketStep(TrimSpace(part[1..|part| - 1])))
  {
    var b := BracketStep(TrimSpace(part[1..|part| - 1]));
    assert TokenSteps(part) == WithBracket([], b);
    if b.Ok? {
      assert [] + [b.value] == [b.value];
    }
  }

  /** A token `name[inside]` that does not start with `[`: Key(name) when `name` is not empty, then the selected step. */
  lemma NamedBracketToken(steps: seq<Step>, part: string, lb: int, out: seq<Step>)
    requires !(StartsWithBracket(part) && EndsWithBracket(part))
    requires lb == IndexOf(part, '[') && lb != -1 && EndsWithBracket(part)
    requires out == steps + (if part[..lb] != "" then [Key(part[..lb])] else [])
    ensures lb + 1 <= |part| - 1
    ensures AddToken(steps, part) == WithBracket(out, BracketStep(TrimSpace(part[lb + 1..|part| - 1])))
  {
    var keyStep := if part[..lb] != "" then [Key(part[..lb])] else [];
    var b := BracketStep(TrimSpace(part[lb + 1..|part| - 1]));
    assert TokenSteps(part) == WithBracket(keyStep, b);
    if b.Ok? {
      AppendAssociates(steps, keyStep, b.value);
    }
  }

  lemma AppendAssociates(a: seq<Step>, b: seq<Step>, s: Step)
    ensures (a + b) + [s] == a + (b + [s])
  {
  }

  /** Any other token: the steps so far, then one Key step with the token's text. */
  lemma PlainKeyToken(steps: seq<Step>, part: string)
    requires !(StartsWithBracket(part) && EndsWithBracket(part))
    requires !(IndexOf(part, '[') != -1 && EndsWithBracket(part))
    ensures AddToken(steps, part) == Ok(steps + [Key(part)])
  {
  }

  /** Go's `parsePathSteps`. */
  method ParsePathSteps(path: string) returns (r: Result<seq<Step>, ParseError>)
    ensures r == ParsePath(path)
  {
    var p := TrimSpace(path);
    if p == "" || p == "." {
      return Ok([]);
    }
    var parts := Split(p, '.');
    var steps: seq<Step> := [];
    var i := 0;
    while i < |parts|
      invariant 0 <= i <= |parts|
      invariant ParseTokens(parts[..i]) == Ok(steps)
    {
      ParseTokensStep(parts, i, steps);
      var part := TrimSpace(parts[i]);
      if part == "" {
        i := i + 1;
        continue;
      }
      var next := AppendTokenSteps(steps, part);
      if next.Err? {
        ParseTokensErrorStays(parts, i + 1, next.error);
        return next;
      }
      steps := next.value;
      i := i + 1;
    }
    assert parts[..i] == parts;
    return Ok(steps);
  }

  /** Go's `stepsContainLoop`: whether some step is a fan-out step. */
  function StepsContainLoop(steps: seq<Step>): (r: bool)
    ensures r <==> All in steps
  {
    if steps == [] then false
    else if steps[0].All? then true
    else
      assert steps == [steps[0]] + steps[1..];
      StepsContainLoop(steps[1..])
  }

  // ---------------------------------------------------------------------------
  // Properties of the parser

  /** A blank path, or `.` with white space around it, has no steps. */
  lemma BlankPathHasNoSteps(path: string)
    requires AllSpace(path) || TrimSpace(path) == "."
    ensures ParsePath(path) == Ok([])
  {
  }

  /** A token that does not end in `]` is one Key step carrying its text. */
  lemma PlainToken(part: string)
    requires !EndsWithBracket(part)
    ensures TokenSteps(part) == Ok([Key(part)])
  {
  }

  /**
    `name[inside]`, with no `[` in `name`: Key(name) unless `name` is empty, then the
    step selected by the trimmed `inside`; or that selection's error.
   */
  lemma BracketToken(name: string, inside: string, part: string)
    requires '[' !in name && part == name + "[" + inside + "]"
    ensures TokenSteps(part) ==
      WithBracket(if name != "" then [Key(name)] else [], BracketStep(TrimSpace(inside)))
  {
    assert part[|name|] == '[';
    IndexOfFirst(name, '[', inside + "]");
    assert part == name + ['['] + (inside + "]");
    if name == "" {
      assert part[1..|part| - 1] == inside;
    } else {
      assert part[|name| + 1..|part| - 1] == inside;
      assert part[..|name|] == name;
      assert !StartsWithBracket(part) by {
        assert part[0] == name[0];
      }
    }
  }

  /** A token whose trimmed text is not empty and has a bad bracket selection. */
  predicate TokenFails(part: string) {
    TrimSpace(part) != "" && TokenSteps(TrimSpace(part)).Err?
  }

  /** Parsing fails exactly when some token has a bad bracket selection. */
  lemma {:induction false} ParseTokensFails(parts: seq<string>)
    ensures ParseTokens(parts).Err? <==> exists i :: 0 <= i < |parts| && TokenFails(parts[i])
  {
    if parts != [] {
      var init := parts[..|parts| - 1];
      ParseTokensFails(init);
      if ParseTokens(init).Err? {
        var i :| 0 <= i < |init| && TokenFails(init[i]);
        assert parts[i] == init[i];
      } else {
        assert !TokenFails(parts[|parts| - 1]) ==> ParseTokens(parts).Ok?;
        forall i | 0 <= i < |parts| - 1
          ensures !TokenFails(parts[i])
        {
          assert parts[i] == init[i];
        }
      }
    }
  }

  /** A token with no dot, no bracket and no white space at either end. */
  predicate PlainName(s: string) {
    && s != [] && !IsSpace(s[0]) && !IsSpace(s[|s| - 1])
    && '.' !in s && '[' !in s && ']' !in s
  }

  /** The decimal text of a 64-bit integer is a plain name that reads back as that integer. */
  lemma ItoaPlain(n: int)
    requires MinInt <= n <= MaxInt
    ensures PlainName(Itoa(n)) && Itoa(n) != "*" && Atoi(Itoa(n)) == Some(n)
  {
    AtoiItoa(n);
    ItoaText(n);
    SignedDigitsPlain(Itoa(n));
  }

  /** A predicate for the text Itoa writes: digits, perhaps after a minus sign. */
  predicate SignedDigits(s: string) {
    s != [] && IsDigit(s[|s| - 1]) && forall k :: 0 <= k < |s| ==> IsDigit(s[k]) || s[k] == '-'
  }

  lemma ItoaText(n: int)
    ensures SignedDigits(Itoa(n))
  {
    var m: nat := if n < 0 then -n else n;
    DigitsValueOfDigits(m);
    var d := Digits(m);
    if n < 0 {
      assert Itoa(n) == "-" + d;
      assert forall k :: 1 <= k < |Itoa(n)| ==> Itoa(n)[k] == d[k - 1];
    }
  }

  lemma SignedDigitsPlain(s: string)
    requires SignedDigits(s)
    ensures PlainName(s) && s != "*"
  {
    assert IsDigit(s[0]) || s[0] == '-';
  }

  /** A path `a.b` with no other dot, not blank at either end, is parsed as the tokens `a` and `b`. */
  lemma TwoTokenPath(a: string, b: string, path: string)
    requires path == a + "." + b && '.' !in a && '.' !in b
    requires !IsSpace(path[0]) && !IsSpace(path[|path| - 1]) && |path| > 1
    ensures ParsePath(path) == ParseTokens([a, b])
  {
    SplitExample(a, b);
  }

  /** Two nonblank tokens, the second a plain key. */
  lemma TwoTokenSteps(a: string, b: string, steps: seq<Step>)
    requires TrimSpace(a) == a != "" && TokenSteps(a) == Ok(steps)
    requires PlainName(b)
    ensures ParseTokens([a, b]) == Ok(steps + [Key(b)])
  {
    PlainToken(b);
    ParseTwoTokens(a, b);
    assert [] + steps == steps;
  }

  /** `name[inside]` with plain name and selection is trimmed, has no dot and starts like `name`. */
  lemma NamedSelectionText(name: string, inside: string, tok: string)
    requires PlainName(name) && PlainName(inside) && tok == name + "[" + inside + "]"
    ensures TrimSpace(tok) == tok != "" && '.' !in tok && !IsSpace(tok[0])
  {
    assert tok[0] == name[0] && tok[|tok| - 1] == ']';
  }

  /** `name[inside]` with plain name and selection: Key(name), then the selected step. */
  lemma NamedSelectionToken(name: string, inside: string, s: Step, tok: string)
    requires PlainName(name) && PlainName(inside) && BracketStep(inside) == Ok(s)
    requires tok == name + "[" + inside + "]"
    ensures TokenSteps(tok) == Ok([Key(name), s])
  {
    assert TrimSpace(inside) == inside;
    TokenExample(name, inside, s, tok);
    assert [Key(name)] + [s] == [Key(name), s];
  }

  /** `name[n].key`, like `servers[0].roles`: a key, an index and a key. */
  lemma ParseNameIndexKey(name: string, n: int, key: string)
    requires PlainName(name) && PlainName(key) && MinInt <= n <= MaxInt
    ensures ParsePath(name + "[" + Itoa(n) + "]." + key) == Ok([Key(name), Index(n), Key(key)])
  {
    ItoaPlain(n);
    NamedSelectionParts(name, Itoa(n), Index(n), key,
      name + "[" + Itoa(n) + "]", name + "[" + Itoa(n) + "]." + key);
  }

  /** `name[*].key`, like `items[*].meta`: a key, a fan-out step and a key. */
  lemma ParseNameAllKey(name: string, key: string)
    requires PlainName(name) && PlainName(key)
    ensures ParsePath(name + "[*]." + key) == Ok([Key(name), All, Key(key)])
  {
    assert PlainName("*") && BracketStep("*") == Ok(All);
    NamedSelectionParts(name, "*", All, key, name + "[" + "*" + "]", name + "[*]." + key);
  }

  lemma NamedSelectionParts(name: string, inside: string, s: Step, key: string, tok: string, path: string)
    requires PlainName(name) && PlainName(inside) && PlainName(key) && BracketStep(inside) == Ok(s)
    requires tok == name + "[" + inside + "]" && path == tok + "." + key
    ensures ParsePath(path) == Ok([Key(name), s, Key(key)])
  {
    NamedSelectionText(name, inside, tok);
    NamedSelectionToken(name, inside, s, tok);
    NamedSelectionTokens(name, s, key, tok);
    PathOfTokenAndKey(tok, key, path);
  }

  lemma NamedSelectionTokens(name: string, s: Step, key: string, tok: string)
    requires PlainName(key) && TrimSpace(tok) == tok != "" && TokenSteps(tok) == Ok([Key(name), s])
    ensures ParseTokens([tok, key]) == Ok([Key(name), s, Key(key)])
  {
    TwoTokenSteps(tok, key, [Key(name), s]);
    assert [Key(name), s] + [Key(key)] == [Key(name), s, Key(key)];
  }

  lemma PathOfTokenAndKey(tok: string, key: string, path: string)
    requires tok != "" && !IsSpace(tok[0]) && '.' !in tok && PlainName(key)
    requires path == tok + "." + key
    ensures ParsePath(path) == ParseTokens([tok, key])
  {
    assert path[0] == tok[0] && path[|path| - 1] == key[|key| - 1];
    TwoTokenPath(tok, key, path);
  }

  /** The bracket token of `.[inside]` is trimmed and has no dot. */
  lemma RootSelectionText(inside: string, tok: string)
    requires PlainName(inside) && tok == "[" + inside + "]"
    ensures TrimSpace(tok) == tok != "" && '.' !in tok && tok[|tok| - 1] == ']'
  {
    assert tok[0] == '[' && tok[|tok| - 1] == ']';
  }

  /** The steps of the bracket token of `.[inside]`. */
  lemma RootSelectionToken(inside: string, tok: string)
    requires PlainName(inside) && tok == "[" + inside + "]"
    ensures TokenSteps(tok) == WithBracket([], BracketStep(inside))
  {
    assert TrimSpace(inside) == inside;
    assert tok == "" + "[" + inside + "]";
    BracketToken("", inside, tok);
  }

  /** How `.[inside]` splits: an empty token before the dot, the bracket token after it. */
  lemma RootSelectionPath(tok: string, path: string)
    requires tok != "" && tok[|tok| - 1] == ']' && '.' !in tok && path == "." + tok
    ensures ParsePath(path) == ParseTokens(["", tok])
  {
    assert path == "" + "." + tok;
    TwoTokenPath("", tok, path);
  }

  /** `.[inside]`, like `.[2]` or `.[*]`: the root's selection alone, or its error. */
  lemma ParseRootSelection(inside: string)
    requires PlainName(inside)
    ensures ParsePath(".[" + inside + "]") == WithBracket([], BracketStep(inside))
  {
    RootSelectionParts(inside, "[" + inside + "]", ".[" + inside + "]");
  }

  lemma RootSelectionParts(inside: string, tok: string, path: string)
    requires PlainName(inside) && tok == "[" + inside + "]" && path == "." + tok
    ensures ParsePath(path) == WithBracket([], BracketStep(inside))
  {
    RootSelectionText(inside, tok);
    RootSelectionToken(inside, tok);
    RootSelectionPath(tok, path);
    BracketAfterEmptyToken(tok, WithBracket([], BracketStep(inside)));
  }

  lemma BracketAfterEmptyToken(tok: string, r: Result<seq<Step>, ParseError>)
    requires TrimSpace(tok) == tok != "" && TokenSteps(tok) == r
    ensures ParseTokens(["", tok]) == r
  {
    ParseTwoTokens("", tok);
    assert ParseTokens([""]) == Ok([]);
    if r.Ok? {
      assert [] + r.value == r.value;
    }
  }

  /** `.[n]`, like `.[2]`: one index step; a negative index parses too. */
  lemma ParseRootIndex(n: int)
    requires MinInt <= n <= MaxInt
    ensures ParsePath(".[" + Itoa(n) + "]") == Ok([Index(n)])
  {
    ItoaPlain(n);
    ParseRootSelection(Itoa(n));
    assert BracketStep(Itoa(n)) == Ok(Index(n));
    assert [] + [Index(n)] == [Index(n)];
  }

  /** A bracket holding neither `*` nor an integer makes the whole path an error. */
  lemma ParseRootBadSelection(inside: string)
    requires PlainName(inside) && inside != "*" && Atoi(inside).None?
    ensures ParsePath(".[" + inside + "]") == Err(InvalidBracketSelection(inside))
  {
    ParseRootSelection(inside);
  }

  lemma ParseTwoTokens(a: string, b: string)
    ensures ParseTokens([a]) == (if TrimSpace(a) == "" then Ok([]) else AddToken([], TrimSpace(a)))
    ensures ParseTokens([a, b]) ==
      match ParseTokens([a])
      case Err(e) => Err(e)
      case Ok(steps) => if TrimSpace(b) == "" then Ok(steps) else AddToken(steps, TrimSpace(b))
  {
    assert [a][..0] == [];
    assert [a, b][..1] == [a];
  }

  lemma TokenExample(name: string, inside: string, s: Step, part: string)
    requires '[' !in name && TrimSpace(inside) == inside && part == name + "[" + inside + "]"
    requires BracketStep(inside) == Ok(s)
    ensures TokenSteps(part) == Ok((if name != "" then [Key(name)] else []) + [s])
  {
    BracketToken(name, inside, part);
  }

  lemma SplitExample(a: string, b: string)
    requires '.' !in a && '.' !in b
    ensures Split(a + "." + b, '.') == [a, b]
  {
    SplitJoin([a, b], '.');
  }
}
