/** Path-template matching of the intercepting proxy (doesPathMatch).

    A mock path such as `/users/:id/orders` is turned into a regular
    expression by replacing every `:name` part (from a `:` up to the next
    `/`) with the character class PATH_VAR_REGEX, and the inbound path is
    matched against it, anchored at both ends.

    The model splits the template into tokens (literal chunks and variable
    slots), proves that the string-rewriting loop produces exactly the
    rendering of those tokens, reads that regular expression back with
    `Compile` (the only regex constructs it can contain are literal text and
    PATH_VAR_REGEX) and gives it its meaning with `MatchTokens`. */
module PathTemplate {
  import opened Text

  datatype Token = Literal(text: string) | Variable(name: string)

  /** The regex fragment a variable becomes: one or more characters of the
      class below. */
  const PATH_VAR_REGEX: string := "[a-zA-Z0-9_+-._~:!$&'()*+,=@]+"

  // ------------------------------------------------------------ the class

  /** The class of PATH_VAR_REGEX as Java reads it: the ranges `a-z`, `A-Z`,
      `0-9` and `+-.` (that is `+ , - .`), and the characters
      `_ ~ : ! $ & ' ( ) * + , = @`. */
  predicate InPathVarClass(c: char) {
    || 'a' <= c <= 'z' || 'A' <= c <= 'Z' || '0' <= c <= '9'
    || '+' <= c <= '.'
    || c == '_' || c == '~' || c == ':' || c == '!' || c == '$' || c == '&' || c == '\''
    || c == '(' || c == ')' || c == '*' || c == '+' || c == ',' || c == '=' || c == '@'
  }

  predicate AllInPathVarClass(seg: string) {
    forall i :: 0 <= i < |seg| ==> InPathVarClass(seg[i])
  }

  /** The class admits neither `/` nor `?` (the path and query delimiters),
      nor `;`, `%` or `#`. */
  lemma PathVarClassExcludes(seg: string)
    requires AllInPathVarClass(seg)
    ensures '/' !in seg && '?' !in seg && ';' !in seg && '%' !in seg && '#' !in seg
  {
  }

  // ------------------------------------------------------------ templates

  /** Where the variable whose `:` is at `i` ends: the next `/`, or the end. */
  function VarEnd(p: string, i: nat): (end: nat)
    requires i < |p| && p[i] == ':'
    ensures i < end <= |p| && '/' !in p[i + 1..end]
    ensures end < |p| ==> p[end] == '/'
  {
    var e := IndexOf(p, '/', i);
    if e > -1 then e else |p|
  }

  /** The literal chunk before position `i`, if it is not empty. */
  function Lead(p: string, i: nat): seq<Token>
    requires i <= |p|
  {
    if i == 0 then [] else [Literal(p[..i])]
  }

  /** The template cut into tokens, as the rewriting loop walks it: the text
      before the first `:` is literal, the variable runs from that `:` to
      the next `/` (or the end), and the rest is cut the same way. */
  function Tokenize(p: string): (ts: seq<Token>)
    ensures forall i :: 0 <= i < |ts| && ts[i].Literal? ==> ts[i].text != [] && ':' !in ts[i].text
    ensures forall i :: 0 <= i < |ts| && ts[i].Variable? ==> '/' !in ts[i].name
    decreases |p|
  {
    var i := IndexOf(p, ':', 0);
    if i < 0 then Lead(p, |p|)
    else Lead(p, i) + [Variable(p[i + 1..VarEnd(p, i)])] + Tokenize(p[VarEnd(p, i)..])
  }

  /** The template text a token list stands for. */
  function Unparse(ts: seq<Token>): string {
    if ts == [] then [] else UnparseToken(ts[0]) + Unparse(ts[1..])
  }

  function UnparseToken(t: Token): string {
    match t
    case Literal(l) => l
    case Variable(n) => ":" + n
  }

  lemma {:induction false} UnparseConcat(a: seq<Token>, b: seq<Token>)
    ensures Unparse(a + b) == Unparse(a) + Unparse(b)
  {
    if a != [] {
      assert (a + b)[0] == a[0];
      assert (a + b)[1..] == a[1..] + b;
      UnparseConcat(a[1..], b);
      calc {
        Unparse(a + b);
        UnparseToken(a[0]) + Unparse(a[1..] + b);
        UnparseToken(a[0]) + (Unparse(a[1..]) + Unparse(b));
        (UnparseToken(a[0]) + Unparse(a[1..])) + Unparse(b);
      }
    } else {
      assert a + b == b;
    }
  }

  /** One step of Tokenize, when the template holds a `:`. */
  lemma TokenizeStep(p: string, i: nat)
    requires i == IndexOf(p, ':', 0)
    ensures Tokenize(p) == Lead(p, i) + [Variable(p[i + 1..VarEnd(p, i)])] + Tokenize(p[VarEnd(p, i)..])
  {
  }

  /** A template split around its first variable. */
  lemma SplitAtVariable(p: string, i: nat, end: nat)
    requires i < end <= |p| && p[i] == ':'
    ensures p == p[..i] + (":" + p[i + 1..end]) + p[end..]
  {
    assert p[i..] == [p[i]] + p[i + 1..end] + p[end..];
    assert p == p[..i] + p[i..];
  }

  /** Tokenizing loses nothing: the tokens spell the template again. */
  lemma {:induction false} UnparseTokenize(p: string)
    ensures Unparse(Tokenize(p)) == p
    decreases |p|
  {
    var i := IndexOf(p, ':', 0);
    if i < 0 {
      assert p[..|p|] == p;
    } else {
      var end := VarEnd(p, i);
      var v := Variable(p[i + 1..end]);
      TokenizeStep(p, i);
      UnparseConcat(Lead(p, i) + [v], Tokenize(p[end..]));
      UnparseConcat(Lead(p, i), [v]);
      UnparseTokenize(p[end..]);
      assert Unparse(Lead(p, i)) == p[..i];
      assert Unparse([v]) == ":" + p[i + 1..end];
      SplitAtVariable(p, i, end);
    }
  }

  /** Characters with a meaning in a Java regular expression outside a class. */
  const REGEX_METACHARS: string := "\\^$.|?*+()[]{}"

  /** The templates the model covers: literal chunks carry no regex
      metacharacter (so they match themselves), and every variable name is
      non-empty and does not start with `!` (so replaceOnce cannot find the
      variable's text inside an already inserted PATH_VAR_REGEX). */
  predicate ValidTokens(ts: seq<Token>) {
    forall i :: 0 <= i < |ts| ==>
      match ts[i]
      case Literal(l) => forall j :: 0 <= j < |l| ==> l[j] !in REGEX_METACHARS
      case Variable(n) => n != [] && n[0] != '!'
  }

  predicate ValidTemplate(p: string) {
    ValidTokens(Tokenize(p))
  }

  // ------------------------------------------------------------ meaning

  /** `s` is matched, in full, by the token list: a literal matches itself,
      a variable one or more characters of the class. */
  function MatchTokens(s: string, ts: seq<Token>): bool
    decreases |ts|
  {
    if ts == [] then s == []
    else match ts[0]
      case Literal(l) => |l| <= |s| && s[..|l|] == l && MatchTokens(s[|l|..], ts[1..])
      case Variable(_) =>
        exists k :: 1 <= k <= |s| && AllInPathVarClass(s[..k]) && MatchTokens(s[k..], ts[1..])
  }

  /** What doesPathMatch decides for a template the model covers. */
  predicate PathMatches(inboundPath: string, template: string) {
    MatchTokens(inboundPath, Tokenize(template))
  }

  // ------------------------------------------------------------ regex text

  /** The regular expression text of a token list. */
  function Render(ts: seq<Token>): string {
    if ts == [] then [] else RenderToken(ts[0]) + Render(ts[1..])
  }

  function RenderToken(t: Token): string {
    match t
    case Literal(l) => l
    case Variable(_) => PATH_VAR_REGEX
  }

  lemma {:induction false} RenderConcat(a: seq<Token>, b: seq<Token>)
    ensures Render(a + b) == Render(a) + Render(b)
  {
    if a != [] {
      assert (a + b)[0] == a[0];
      assert (a + b)[1..] == a[1..] + b;
      RenderConcat(a[1..], b);
      calc {
        Render(a + b);
        RenderToken(a[0]) + Render(a[1..] + b);
        RenderToken(a[0]) + (Render(a[1..]) + Render(b));
        (RenderToken(a[0]) + Render(a[1..])) + Render(b);
      }
    } else {
      assert a + b == b;
    }
  }

  /** Reads regular-expression text built from literal text and copies of
      PATH_VAR_REGEX back into tokens (variables come back unnamed). */
  function Compile(r: string): seq<Token>
    decreases |r|
  {
    if r == [] then []
    else
      var i := IndexOfString(r, PATH_VAR_REGEX, 0);
      if i == -1 then [Literal(r)]
      else (if i == 0 then [] else [Literal(r[..i])]) + [Variable("")]
           + Compile(r[i + |PATH_VAR_REGEX|..])
  }

  /** String.matches with an anchored pattern of that fragment. */
  function FullMatch(input: string, pattern: string): bool {
    if |pattern| >= 2 && pattern[0] == '^' && pattern[|pattern| - 1] == '$'
    then MatchTokens(input, Compile(pattern[1..|pattern| - 1]))
    else MatchTokens(input, Compile(pattern))
  }

  function Erase(ts: seq<Token>): (r: seq<Token>)
    ensures |r| == |ts|
  {
    if ts == [] then [] else [EraseToken(ts[0])] + Erase(ts[1..])
  }

  function EraseToken(t: Token): Token {
    match t
    case Literal(l) => Literal(l)
    case Variable(_) => Variable("")
  }

  /** Matching does not look at variable names. */
  lemma {:induction false} MatchErase(s: string, ts: seq<Token>)
    ensures MatchTokens(s, Erase(ts)) == MatchTokens(s, ts)
    decreases |ts|
  {
    if ts != [] {
      var e := Erase(ts);
      assert e[1..] == Erase(ts[1..]);
      match ts[0]
      case Literal(l) =>
        if |l| <= |s| {
          MatchErase(s[|l|..], ts[1..]);
        }
      case Variable(_) =>
        forall k | 1 <= k <= |s|
          ensures MatchTokens(s[k..], e[1..]) == MatchTokens(s[k..], ts[1..])
        {
          MatchErase(s[k..], ts[1..]);
        }
    }
  }

  /** No occurrence of PATH_VAR_REGEX starts inside text without `[`. */
  lemma NoClassBefore(l: string, rest: string)
    requires '[' !in l
    ensures forall j :: 0 <= j < |l| ==> !OccursAt(l + rest, PATH_VAR_REGEX, j)
  {
    forall j | 0 <= j < |l|
      ensures !OccursAt(l + rest, PATH_VAR_REGEX, j)
    {
      assert (l + rest)[j] == l[j] != '[';
      if j + |PATH_VAR_REGEX| <= |l + rest| {
        assert (l + rest)[j..j + |PATH_VAR_REGEX|][0] != PATH_VAR_REGEX[0];
      }
    }
  }

  /** In a valid template, the first variable's name is not empty and does
      not start with `!`. */
  lemma VariableName(p: string, i: nat)
    requires i == IndexOf(p, ':', 0) && ValidTemplate(p)
    ensures p[i + 1..VarEnd(p, i)] != [] && p[i + 1] != '!'
  {
    TokenizeStep(p, i);
    assert Tokenize(p)[|Lead(p, i)|] == Variable(p[i + 1..VarEnd(p, i)]);
  }

  /** What a valid template tells about its first variable and the rest. */
  lemma ValidStep(p: string, i: nat)
    requires i == IndexOf(p, ':', 0) && ValidTemplate(p)
    ensures '[' !in p[..i]
    ensures ValidTemplate(p[VarEnd(p, i)..])
  {
    var end := VarEnd(p, i);
    var lead := Lead(p, i);
    var rest := Tokenize(p[end..]);
    var ts := Tokenize(p);
    TokenizeStep(p, i);
    assert ValidTokens(rest) by {
      forall j | 0 <= j < |rest| ensures ts[|lead| + 1 + j] == rest[j] { }
    }
    if i > 0 {
      assert ts[0] == Literal(p[..i]);
      assert '[' in REGEX_METACHARS;
    }
  }

  lemma LeadRender(p: string, i: nat)
    requires i <= |p|
    ensures Render(Lead(p, i)) == p[..i]
    ensures Erase(Lead(p, i)) == Lead(p, i)
  {
  }

  lemma RenderVariable(n: string)
    ensures Render([Variable(n)]) == PATH_VAR_REGEX
    ensures Erase([Variable(n)]) == [Variable("")]
  {
    assert [Variable(n)][1..] == [];
  }

  /** Render and Erase of a template, around its first variable. */
  lemma RenderStep(p: string, i: nat)
    requires i == IndexOf(p, ':', 0)
    ensures Render(Tokenize(p)) == p[..i] + PATH_VAR_REGEX + Render(Tokenize(p[VarEnd(p, i)..]))
    ensures Erase(Tokenize(p)) == Lead(p, i) + [Variable("")] + Erase(Tokenize(p[VarEnd(p, i)..]))
  {
    var lead := Lead(p, i);
    var v := Variable(p[i + 1..VarEnd(p, i)]);
    var rest := Tokenize(p[VarEnd(p, i)..]);
    TokenizeStep(p, i);
    LeadRender(p, i);
    RenderVariable(v.name);
    calc {
      Render(Tokenize(p));
      Render(lead + [v] + rest);
      { RenderConcat(lead + [v], rest); }
      Render(lead + [v]) + Render(rest);
      { RenderConcat(lead, [v]); }
      Render(lead) + Render([v]) + Render(rest);
    }
    calc {
      Erase(Tokenize(p));
      Erase(lead + [v] + rest);
      { EraseConcat(lead + [v], rest); }
      Erase(lead + [v]) + Erase(rest);
      { EraseConcat(lead, [v]); }
      Erase(lead) + Erase([v]) + Erase(rest);
    }
  }

  /** Compile finds the class right after a literal chunk without `[`. */
  lemma CompileStep(l: string, tail: string)
    requires '[' !in l
    ensures Compile(l + PATH_VAR_REGEX + tail) == Lead(l, |l|) + [Variable("")] + Compile(tail)
  {
    var r := l + PATH_VAR_REGEX + tail;
    NoClassBefore(l, PATH_VAR_REGEX + tail);
    assert r == l + (PATH_VAR_REGEX + tail);
    assert OccursAt(r, PATH_VAR_REGEX, |l|);
    assert r[|l| + |PATH_VAR_REGEX|..] == tail;
    assert r[..|l|] == l;
    assert IndexOfString(r, PATH_VAR_REGEX, 0) == |l|;
    assert l[..|l|] == l;
    assert Compile(r) == (if |l| == 0 then [] else [Literal(r[..|l|])]) + [Variable("")]
                         + Compile(r[|l| + |PATH_VAR_REGEX|..]);
  }

  /** The no-variable case of CompileRender. */
  lemma CompileRenderLiteral(p: string)
    requires IndexOf(p, ':', 0) < 0 && ValidTemplate(p)
    ensures Compile(Render(Tokenize(p))) == Erase(Tokenize(p))
  {
    if p != [] {
      var ts := Tokenize(p);
      assert ts == [Literal(p)] by { assert p[..|p|] == p; }
      assert '[' !in p by { assert '[' in REGEX_METACHARS; assert ts[0] == Literal(p); }
      assert Render(ts) == p;
      NoClassBefore(p, []);
      assert p + [] == p;
      assert IndexOfString(p, PATH_VAR_REGEX, 0) == -1;
    }
  }

  /** Compiling the regex text of a template's tokens gives the tokens back,
      unnamed. */
  lemma {:induction false} CompileRender(p: string)
    requires ValidTemplate(p)
    ensures Compile(Render(Tokenize(p))) == Erase(Tokenize(p))
    decreases |p|
  {
    var i := IndexOf(p, ':', 0);
    if i < 0 {
      CompileRenderLiteral(p);
    } else {
      var end := VarEnd(p, i);
      ValidStep(p, i);
      RenderStep(p, i);
      CompileRender(p[end..]);
      CompileStep(p[..i], Render(Tokenize(p[end..])));
      if i > 0 {
        assert p[..i][..i] == p[..i];
      }
    }
  }

  lemma {:induction false} EraseConcat(a: seq<Token>, b: seq<Token>)
    ensures Erase(a + b) == Erase(a) + Erase(b)
  {
    if a != [] {
      assert (a + b)[0] == a[0];
      assert (a + b)[1..] == a[1..] + b;
      EraseConcat(a[1..], b);
      calc {
        Erase(a + b);
        [EraseToken(a[0])] + Erase(a[1..] + b);
        [EraseToken(a[0])] + (Erase(a[1..]) + Erase(b));
        ([EraseToken(a[0])] + Erase(a[1..])) + Erase(b);
      }
    } else {
      assert a + b == b;
    }
  }

  // ------------------------------------------------------------ the loop

  /** Every `:` in `s` is followed by `!`, as in PATH_VAR_REGEX. */
  predicate ColonsGuarded(s: string) {
    forall j :: 0 <= j < |s| && s[j] == ':' ==> j + 1 < |s| && s[j + 1] == '!'
  }

  lemma RegexColonsGuarded()
    ensures ColonsGuarded(PATH_VAR_REGEX)
  {
  }

  lemma ColonsGuardedConcat(a: string, b: string)
    requires ColonsGuarded(a) && ColonsGuarded(b)
    ensures ColonsGuarded(a + b)
  {
    forall j | 0 <= j < |a + b| && (a + b)[j] == ':'
      ensures j + 1 < |a + b| && (a + b)[j + 1] == '!'
    {
      if j < |a| { assert a[j] == ':'; } else { assert b[j - |a|] == ':'; }
    }
  }

  /** The variable text `:name` cannot occur before its own position: every
      earlier `:` is one of PATH_VAR_REGEX, followed by `!`. */
  lemma FirstOccurrence(done: string, rest: string, idx: nat, part: string)
    requires ColonsGuarded(done)
    requires idx <= |rest| && ':' !in rest[..idx]
    requires |part| >= 2 && part[0] == ':' && part[1] != '!'
    ensures forall j :: 0 <= j < |done| + idx ==> !OccursAt(done + rest, part, j)
  {
    var t := done + rest;
    forall j | 0 <= j < |done| + idx
      ensures !OccursAt(t, part, j)
    {
      if j + |part| <= |t| {
        if j < |done| && done[j] == ':' {
          assert t[j..j + |part|][1] == '!' != part[1];
        } else if j < |done| {
          assert t[j..j + |part|][0] != ':';
        } else {
          assert rest[..idx][j - |done|] != ':';
          assert t[j..j + |part|][0] != ':';
        }
      }
    }
  }

  /** One pass of the rewriting loop on the text: replaceOnce of the first
      variable's `:name` rewrites that very variable, since every earlier `:`
      belongs to an inserted PATH_VAR_REGEX. */
  lemma RewriteStep(doneText: string, m: string, i: nat, replacement: string)
    requires i == IndexOf(m, ':', 0) && ValidTemplate(m) && ColonsGuarded(doneText)
    ensures ReplaceOnce(doneText + m, m[i..VarEnd(m, i)], replacement)
            == (doneText + m[..i] + replacement) + m[VarEnd(m, i)..]
  {
    var end := VarEnd(m, i);
    VariableName(m, i);
    assert i + 1 < end;
    FirstVariableOccurs(doneText, m, i, end);
    ReplaceAtSplice(doneText, m, i, end, replacement);
  }

  /** The `:name` at the first `:` of `m` occurs in `doneText + m` where `m`
      puts it, and nowhere before. */
  lemma FirstVariableOccurs(doneText: string, m: string, i: nat, end: nat)
    requires i == IndexOf(m, ':', 0) && ColonsGuarded(doneText)
    requires i + 1 < end <= |m| && m[i + 1] != '!'
    ensures OccursAt(doneText + m, m[i..end], |doneText| + i)
    ensures forall j :: 0 <= j < |doneText| + i ==> !OccursAt(doneText + m, m[i..end], j)
  {
    var part := m[i..end];
    assert part[0] == m[i] == ':' && part[1] == m[i + 1];
    assert ':' !in m[..i];
    FirstOccurrence(doneText, m, i, part);
    SlicesOfConcat(doneText, m, i, end);
  }

  /** ReplaceOnce at a first occurrence that lies inside the `y` of `x + y`. */
  lemma ReplaceAtSplice(x: string, y: string, i: nat, end: nat, r: string)
    requires i < end <= |y|
    requires OccursAt(x + y, y[i..end], |x| + i)
    requires forall j :: 0 <= j < |x| + i ==> !OccursAt(x + y, y[i..end], j)
    ensures ReplaceOnce(x + y, y[i..end], r) == (x + y[..i] + r) + y[end..]
  {
    ReplaceOnceAt(x + y, y[i..end], r, |x| + i);
    SpliceConcat(x, y, i, end, r);
  }

  /** Slices of `x + y` that start inside `y`. */
  lemma SlicesOfConcat(x: string, y: string, i: nat, end: nat)
    requires i <= end <= |y|
    ensures (x + y)[|x| + i..|x| + end] == y[i..end]
  {
  }

  /** Cutting `x + y` around a span inside `y` and putting `r` there. */
  lemma SpliceConcat(x: string, y: string, i: nat, end: nat, r: string)
    requires i <= end <= |y|
    ensures (x + y)[..|x| + i] + r + (x + y)[|x| + end..] == (x + y[..i] + r) + y[end..]
  {
    assert (x + y)[..|x| + i] == x + y[..i];
    assert (x + y)[|x| + end..] == y[end..];
  }

  /** The rewritten prefix keeps every `:` guarded. */
  lemma GuardStep(doneText: string, m: string, i: nat)
    requires i == IndexOf(m, ':', 0) && ColonsGuarded(doneText)
    ensures ColonsGuarded(doneText + m[..i] + PATH_VAR_REGEX)
  {
    assert ':' !in m[..i];
    RegexColonsGuarded();
    ColonsGuardedConcat(m[..i], PATH_VAR_REGEX);
    ColonsGuardedConcat(doneText, m[..i] + PATH_VAR_REGEX);
    assert doneText + m[..i] + PATH_VAR_REGEX == doneText + (m[..i] + PATH_VAR_REGEX);
  }

  /** One pass of the rewriting loop on the tokens. */
  lemma DoneStep(done: seq<Token>, m: string, i: nat)
    requires i == IndexOf(m, ':', 0)
    ensures var ts := done + Lead(m, i) + [Variable(m[i + 1..VarEnd(m, i)])];
            && Render(ts) == Render(done) + m[..i] + PATH_VAR_REGEX
            && ts + Tokenize(m[VarEnd(m, i)..]) == done + Tokenize(m)
  {
    var lead := Lead(m, i);
    var v := Variable(m[i + 1..VarEnd(m, i)]);
    LeadRender(m, i);
    RenderVariable(v.name);
    RenderThree(done, lead, v);
    TokenizeStep(m, i);
    RegroupTokens(done, lead, [v], Tokenize(m[VarEnd(m, i)..]));
  }

  /** The regex text of three consecutive pieces. */
  lemma RenderThree(done: seq<Token>, lead: seq<Token>, v: Token)
    ensures Render(done + lead + [v]) == Render(done) + Render(lead) + Render([v])
  {
    RenderConcat(done + lead, [v]);
    RenderConcat(done, lead);
  }

  lemma RegroupTokens(a: seq<Token>, b: seq<Token>, c: seq<Token>, d: seq<Token>)
    ensures a + b + c + d == a + (b + c + d)
  {
  }

  /** The end of the loop: no variable is left in the template's tail. */
  lemma LoopExit(done: seq<Token>, m: string)
    requires IndexOf(m, ':', 0) < 0
    ensures Render(done + Tokenize(m)) == Render(done) + m
  {
    assert Tokenize(m) == Lead(m, |m|);
    LeadRender(m, |m|);
    assert m[..|m|] == m;
    RenderConcat(done, Tokenize(m));
  }

  /** ProxyServerUtils.doesPathMatch. The loop rewrites each `:name` part
      of the template into PATH_VAR_REGEX with replaceOnce; the result is
      the regex text of the template's tokens, and the answer is whether the
      inbound path matches that expression in full. */
  method DoesPathMatch(inboundPath: string, path: string) returns (matched: bool, ghost regex: string)
    requires ValidTemplate(path)
    ensures regex == Render(Tokenize(path))
    ensures matched == PathMatches(inboundPath, path)
  {
    var newMockPathRegex := path;
    var mockPath := path;
    ghost var done: seq<Token> := [];
    var mockPathVarIdx := IndexOf(mockPath, ':', 0);
    while mockPathVarIdx > -1
      invariant mockPathVarIdx == IndexOf(mockPath, ':', 0)
      invariant done + Tokenize(mockPath) == Tokenize(path)
      invariant ValidTemplate(mockPath)
      invariant newMockPathRegex == Render(done) + mockPath
      invariant ColonsGuarded(Render(done))
      decreases |mockPath|
    {
      var pathVarEnd := IndexOf(mockPath, '/', mockPathVarIdx);
      var pathVarEndIdx := if pathVarEnd > -1 then pathVarEnd else |mockPath|;
      assert pathVarEndIdx == VarEnd(mockPath, mockPathVarIdx);
      var part := mockPath[mockPathVarIdx..pathVarEndIdx];

      RewriteStep(Render(done), mockPath, mockPathVarIdx, PATH_VAR_REGEX);
      GuardStep(Render(done), mockPath, mockPathVarIdx);
      ValidStep(mockPath, mockPathVarIdx);
      DoneStep(done, mockPath, mockPathVarIdx);
      newMockPathRegex := ReplaceOnce(newMockPathRegex, part, PATH_VAR_REGEX);
      done := done + Lead(mockPath, mockPathVarIdx) + [Variable(mockPath[mockPathVarIdx + 1..pathVarEndIdx])];

      mockPath := mockPath[pathVarEndIdx..];
      mockPathVarIdx := IndexOf(mockPath, ':', 0);
    }
    LoopExit(done, mockPath);
    regex := newMockPathRegex;

    matched := FullMatch(inboundPath, "^" + newMockPathRegex + "$");
    FullMatchAnchored(inboundPath, newMockPathRegex);
    MatchRendered(inboundPath, path);
  }

  /** Anchoring with `^` and `$` asks for a match of the whole input. */
  lemma FullMatchAnchored(input: string, r: string)
    ensures FullMatch(input, "^" + r + "$") == MatchTokens(input, Compile(r))
  {
    assert ("^" + r + "$")[1..|r| + 1] == r;
  }

  /** The regex text of a valid template matches exactly the paths the
      template's tokens match. */
  lemma MatchRendered(input: string, path: string)
    requires ValidTemplate(path)
    ensures MatchTokens(input, Compile(Render(Tokenize(path)))) == PathMatches(input, path)
  {
    CompileRender(path);
    MatchErase(input, Tokenize(path));
  }

  // ------------------------------------------------------------ properties

  /** A leading literal chunk must be a prefix of the path. */
  lemma MatchLead(s: string, l: string, ts: seq<Token>)
    ensures MatchTokens(s, Lead(l, |l|) + ts) <==> StartsWith(s, l) && MatchTokens(s[|l|..], ts)
  {
    if l == [] {
      assert Lead(l, |l|) + ts == ts;
      assert s[|l|..] == s;
    } else {
      var us := Lead(l, |l|) + ts;
      assert l[..|l|] == l;
      assert us[0] == Literal(l) && us[1..] == ts;
    }
  }

  /** A trailing literal chunk matches exactly itself. */
  lemma MatchLiteralOnly(s: string, l: string)
    ensures MatchTokens(s, Lead(l, |l|)) <==> s == l
  {
    MatchLead(s, l, []);
    assert Lead(l, |l|) + [] == Lead(l, |l|);
    if StartsWith(s, l) && s[|l|..] == [] {
      assert s == s[..|l|] + s[|l|..];
    }
  }

  /** A leading variable takes one or more characters of the class. */
  lemma MatchVariable(s: string, n: string, ts: seq<Token>)
    ensures MatchTokens(s, [Variable(n)] + ts) <==>
      exists k :: 1 <= k <= |s| && AllInPathVarClass(s[..k]) && MatchTokens(s[k..], ts)
  {
    var us := [Variable(n)] + ts;
    assert us[0] == Variable(n) && us[1..] == ts;
  }

  /** A template without variables matches exactly itself. */
  lemma NoVariableExactMatch(s: string, template: string)
    requires ':' !in template
    ensures PathMatches(s, template) <==> s == template
  {
    assert IndexOf(template, ':', 0) == -1;
    MatchLiteralOnly(s, template);
  }

  /** The first `:` of a template whose literal prefix has none. */
  lemma FirstColon(a: string, rest: string)
    requires ':' !in a && rest != [] && rest[0] == ':'
    ensures IndexOf(a + rest, ':', 0) == |a|
  {
    var p := a + rest;
    forall j | 0 <= j < |a| ensures p[j] != ':' { assert p[j] == a[j]; }
    assert p[|a|] == rest[0];
  }

  /** Where the variable of `a + ":" + name + b` ends. */
  lemma SingleVarEnd(p: string, a: string, name: string, b: string)
    requires p == a + ":" + name + b && p[|a|] == ':'
    requires '/' !in name && (b == [] || b[0] == '/')
    ensures VarEnd(p, |a|) == |a| + 1 + |name|
  {
    var end := |a| + 1 + |name|;
    forall j | |a| <= j < end ensures p[j] != '/' {
      if j > |a| { assert p[j] == name[j - |a| - 1]; }
    }
    if b != [] { assert p[end] == b[0]; }
  }

  /** TokenizeStep, with the three parts of the result named. */
  lemma TokenizeStepWith(p: string, i: nat, lead: seq<Token>, name: string, rest: seq<Token>)
    requires i == IndexOf(p, ':', 0)
    requires lead == Lead(p, i) && name == p[i + 1..VarEnd(p, i)] && rest == Tokenize(p[VarEnd(p, i)..])
    ensures Tokenize(p) == lead + [Variable(name)] + rest
  {
    TokenizeStep(p, i);
  }

  /** Tokenize of a template whose first variable sits between the
      literal chunks `a` and `b`. */
  lemma TokenizeAround(p: string, a: string, name: string, b: string)
    requires |a| < |p| && |a| == IndexOf(p, ':', 0)
    requires VarEnd(p, |a|) == |a| + 1 + |name|
    requires p[..|a|] == a && p[|a| + 1..|a| + 1 + |name|] == name && p[|a| + 1 + |name|..] == b
    requires ':' !in b
    ensures Tokenize(p) == Lead(a, |a|) + [Variable(name)] + Lead(b, |b|)
  {
    assert Lead(p, |a|) == Lead(a, |a|) by { assert a[..|a|] == a; }
    assert Tokenize(b) == Lead(b, |b|) by { assert IndexOf(b, ':', 0) == -1; }
    var end := VarEnd(p, |a|);
    assert p[|a| + 1..end] == name;
    assert p[end..] == b;
    assert Tokenize(p[end..]) == Lead(b, |b|);
    TokenizeStepWith(p, |a|, Lead(a, |a|), name, Lead(b, |b|));
  }

  /** Where the parts of a single-variable template sit. */
  lemma OneVariableLayout(a: string, name: string, b: string)
    requires ':' !in a && '/' !in name
    requires b == [] || b[0] == '/'
    ensures var p := a + ":" + name + b; var end := |a| + 1 + |name|;
      && |a| < |p| && |a| == IndexOf(p, ':', 0) && VarEnd(p, |a|) == end
      && p[..|a|] == a && p[|a| + 1..end] == name && p[end..] == b
  {
    var p := a + ":" + name + b;
    var end := |a| + 1 + |name|;
    assert p == a + (":" + name + b);
    FirstColon(a, ":" + name + b);
    assert p[|a|] == ':';
    SingleVarEnd(p, a, name, b);
    assert p[..|a|] == a && p[|a| + 1..end] == name && p[end..] == b;
  }

  /** The tokens of a template with a single variable. */
  lemma OneVariableTokens(a: string, name: string, b: string)
    requires ':' !in a && '/' !in name && ':' !in b
    requires b == [] || b[0] == '/'
    ensures Tokenize(a + ":" + name + b) == Lead(a, |a|) + [Variable(name)] + Lead(b, |b|)
  {
    OneVariableLayout(a, name, b);
    TokenizeAround(a + ":" + name + b, a, name, b);
  }

  /** A run of class characters that leaves exactly the tail ends where
      the tail begins. */
  lemma ClassRunBeforeTail(t: string, b: string, k: nat)
    requires 1 <= k <= |t| && AllInPathVarClass(t[..k]) && t[k..] == b
    ensures |t| > |b| && t[|t| - |b|..] == b && AllInPathVarClass(t[..|t| - |b|])
  {
    assert k == |t| - |b|;
  }

  /** A run of class characters followed by the tail is matched. */
  lemma VariableThenTailIf(t: string, name: string, b: string)
    requires |t| > |b| && t[|t| - |b|..] == b && AllInPathVarClass(t[..|t| - |b|])
    ensures MatchTokens(t, [Variable(name)] + Lead(b, |b|))
  {
    var tail := Lead(b, |b|);
    var k := |t| - |b|;
    MatchLiteralOnly(t[k..], b);
    assert MatchTokens(t[k..], tail);
    MatchVariable(t, name, tail);
  }

  /** A variable followed by a literal tail: one or more characters of the
      class, then exactly the tail. */
  lemma VariableThenTail(t: string, name: string, b: string)
    ensures MatchTokens(t, [Variable(name)] + Lead(b, |b|)) <==>
      |t| > |b| && t[|t| - |b|..] == b && AllInPathVarClass(t[..|t| - |b|])
  {
    if MatchTokens(t, [Variable(name)] + Lead(b, |b|)) {
      MatchVariable(t, name, Lead(b, |b|));
      var k :| 1 <= k <= |t| && AllInPathVarClass(t[..k]) && MatchTokens(t[k..], Lead(b, |b|));
      MatchLiteralOnly(t[k..], b);
      ClassRunBeforeTail(t, b, k);
    }
    if |t| > |b| && t[|t| - |b|..] == b && AllInPathVarClass(t[..|t| - |b|]) {
      VariableThenTailIf(t, name, b);
    }
  }

  /** A template with one variable: a path matches iff it is the literal
      prefix, then one or more characters of the class, then the literal
      suffix. So the variable never matches an empty segment, nor one
      holding `/` or `?`. */
  lemma OneVariableMatch(s: string, a: string, name: string, b: string)
    requires ':' !in a && '/' !in name && ':' !in b
    requires b == [] || b[0] == '/'
    ensures PathMatches(s, a + ":" + name + b) <==>
      && |s| > |a| + |b|
      && s[..|a|] == a && s[|s| - |b|..] == b
      && AllInPathVarClass(s[|a|..|s| - |b|])
  {
    OneVariableTokens(a, name, b);
    RegroupTokens(Lead(a, |a|), [Variable(name)], Lead(b, |b|), []);
    assert Lead(a, |a|) + [Variable(name)] + Lead(b, |b|) + [] == Lead(a, |a|) + [Variable(name)] + Lead(b, |b|);
    assert [Variable(name)] + Lead(b, |b|) + [] == [Variable(name)] + Lead(b, |b|);
    OneVariableMatchTokens(s, a, name, b);
  }

  /** The token-level core of OneVariableMatch. */
  lemma OneVariableMatchTokens(s: string, a: string, name: string, b: string)
    ensures MatchTokens(s, Lead(a, |a|) + ([Variable(name)] + Lead(b, |b|))) <==>
      && |s| > |a| + |b|
      && s[..|a|] == a && s[|s| - |b|..] == b
      && AllInPathVarClass(s[|a|..|s| - |b|])
  {
    var vt := [Variable(name)] + Lead(b, |b|);
    var lhs := MatchTokens(s, Lead(a, |a|) + vt);
    var rhs := |s| > |a| + |b| && s[..|a|] == a && s[|s| - |b|..] == b && AllInPathVarClass(s[|a|..|s| - |b|]);
    MatchLead(s, a, vt);
    if StartsWith(s, a) {
      var t := s[|a|..];
      var inner := |t| > |b| && t[|t| - |b|..] == b && AllInPathVarClass(t[..|t| - |b|]);
      VariableThenTail(t, name, b);
      assert lhs == inner;
      DropSlices(s, t, |a|, b);
      assert inner == rhs;
    } else {
      assert !lhs && !rhs;
    }
  }

  /** Slices of `s[n..]` measured from its end are slices of `s`. */
  lemma DropSlices(s: string, t: string, n: nat, b: string)
    requires n <= |s| && t == s[n..]
    ensures (|t| > |b| && t[|t| - |b|..] == b && AllInPathVarClass(t[..|t| - |b|]))
        == (|s| > n + |b| && s[|s| - |b|..] == b && AllInPathVarClass(s[n..|s| - |b|]))
  {
    if |s| > n + |b| {
      var mid1, mid2 := t[..|t| - |b|], s[n..|s| - |b|];
      assert mid1 == mid2;
      assert t[|t| - |b|..] == s[|s| - |b|..];
    }
  }
}
