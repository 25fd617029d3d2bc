/** The text side of src/core/generator.ts: wrapping a blueprint's generator
    text into an object literal (`#generateCode`) and minifying it
    (`#optimize`). Every regular-expression replacement with the `g` flag is
    modelled as a left-to-right scan that replaces non-overlapping matches. */
module GeneratorText {

  import opened Types

  /** What a JavaScript `\s` matches and `trim` strips: the WhiteSpace and
      LineTerminator code points. */
  predicate IsWs(c: char) {
    if c <= ' ' then c == ' ' || '\t' <= c <= '\r'
    else if c < '\U{A0}' then false
    else
      || c == '\U{A0}' || c == '\U{1680}' || ('\U{2000}' <= c <= '\U{200A}')
      || c == '\U{2028}' || c == '\U{2029}' || c == '\U{202F}' || c == '\U{205F}'
      || c == '\U{3000}' || c == '\U{FEFF}'
  }

  /** The code points a regular-expression `.` does not match. */
  predicate IsLineTerminator(c: char) {
    c == '\n' || c == '\r' || c == '\U{2028}' || c == '\U{2029}'
  }

  predicate AllWs(s: string) {
    forall i :: 0 <= i < |s| ==> IsWs(s[i])
  }

  predicate NoWs(s: string) {
    forall i :: 0 <= i < |s| ==> !IsWs(s[i])
  }

  // ---------------------------------------------------------------- trim

  /** The length of the run of whitespace at the start. */
  function LeadingWs(s: string): (n: nat)
    ensures n <= |s|
    ensures n < |s| ==> !IsWs(s[n])
  {
    if s != [] && IsWs(s[0]) then 1 + LeadingWs(s[1..]) else 0
  }

  /** The position just after the last character that is not whitespace. */
  function TextEnd(s: string): (n: nat)
    ensures n <= |s|
    ensures n > 0 ==> !IsWs(s[n - 1])
  {
    if s != [] && IsWs(s[|s| - 1]) then TextEnd(s[..|s| - 1]) else |s|
  }

  /** What trimming cuts off the start is whitespace. */
  lemma {:induction false} LeadingWsIsWs(s: string)
    ensures AllWs(s[..LeadingWs(s)])
    decreases |s|
  {
    if s != [] && IsWs(s[0]) {
      LeadingWsIsWs(s[1..]);
      assert s[..LeadingWs(s)] == [s[0]] + s[1..][..LeadingWs(s[1..])];
    }
  }

  /** What trimming cuts off the end is whitespace. */
  lemma {:induction false} AfterTextEndIsWs(s: string)
    ensures AllWs(s[TextEnd(s)..])
    decreases |s|
  {
    if s != [] && IsWs(s[|s| - 1]) {
      AfterTextEndIsWs(s[..|s| - 1]);
      assert s[TextEnd(s)..] == s[..|s| - 1][TextEnd(s[..|s| - 1])..] + [s[|s| - 1]];
    }
  }

  /** String.prototype.trim: the text between the leading and the trailing
      run of whitespace; neither end of the result is whitespace. */
  function Trim(s: string): (r: string)
    ensures |r| <= |s|
    ensures r != [] ==> !IsWs(r[0]) && !IsWs(r[|r| - 1])
  {
    var t := s[LeadingWs(s)..];
    t[..TextEnd(t)]
  }

  /** Trimming cuts whitespace off both ends and nothing else: the result
      is the slice of the input between two runs of whitespace. */
  lemma TrimCutsOnlyWs(s: string)
    ensures var i := LeadingWs(s);
      && i + |Trim(s)| <= |s|
      && Trim(s) == s[i..i + |Trim(s)|]
      && AllWs(s[..i]) && AllWs(s[i + |Trim(s)|..])
  {
    var i := LeadingWs(s);
    var t := s[i..];
    LeadingWsIsWs(s);
    AfterTextEndIsWs(t);
    assert s[i + TextEnd(t)..] == t[TextEnd(t)..];
  }

  /** Text that neither starts nor ends with whitespace is its own trim. */
  lemma TrimKeepsTrimmed(s: string)
    requires s != [] ==> !IsWs(s[0]) && !IsWs(s[|s| - 1])
    ensures Trim(s) == s
  {
  }

  // ------------------------------------------------------ comment removal

  /** The first `*` `/` pair at or after position `i`. */
  function BlockClose(s: string, i: nat): (r: Option<nat>)
    decreases |s| - i
    ensures r.Some? ==> i <= r.value && r.value + 1 < |s| && s[r.value] == '*' && s[r.value + 1] == '/'
    ensures r.Some? ==> forall k :: i <= k < r.value ==> !(s[k] == '*' && s[k + 1] == '/')
    ensures r.None? ==> forall k :: i <= k && k + 1 < |s| ==> !(s[k] == '*' && s[k + 1] == '/')
  {
    if i + 1 >= |s| then None
    else if s[i] == '*' && s[i + 1] == '/' then Some(i)
    else BlockClose(s, i + 1)
  }

  /** The first line terminator at or after position `i`, or the end. */
  function LineEnd(s: string, i: nat): (e: nat)
    requires i <= |s|
    decreases |s| - i
    ensures i <= e <= |s|
    ensures e < |s| ==> IsLineTerminator(s[e])
    ensures forall k :: i <= k < e ==> !IsLineTerminator(s[k])
  {
    if i == |s| || IsLineTerminator(s[i]) then i else LineEnd(s, i + 1)
  }

  /** `.replace(/\/\*[\s\S]*?\*\/|\/\/.*\/g, '')`: at each position, a block
      comment closed by the first following `*` `/` is dropped; failing
      that, a line comment is dropped up to (not including) the next line
      terminator; otherwise the character is kept. An unclosed block opener
      is kept as text. */
  function StripComments(s: string): (r: string)
    decreases |s|
    ensures |r| <= |s|
    ensures '/' !in s ==> r == s
  {
    if s == [] then []
    else if |s| >= 2 && s[0] == '/' && s[1] == '*' && BlockClose(s, 2).Some? then
      StripComments(s[BlockClose(s, 2).value + 2..])
    else if |s| >= 2 && s[0] == '/' && s[1] == '/' then
      StripComments(s[LineEnd(s, 2)..])
    else
      [s[0]] + StripComments(s[1..])
  }

  // ---------------------------------------------------- whitespace removal

  /** `.replace(/\s+/g, '')`. */
  function RemoveWs(s: string): (r: string)
    ensures NoWs(r)
    ensures |r| <= |s|
  {
    if s == [] then []
    else if IsWs(s[0]) then RemoveWs(s[1..])
    else [s[0]] + RemoveWs(s[1..])
  }

  // ------------------------------------------------- keyword re-spacing

  /** How much whitespace a keyword pattern lets stand between the keyword
      and the captured character: `kw([^\s])`, `kw\s*([^\s])` or
      `kw\s+([^\s])`. */
  datatype Gap = NoGap | AnyGap | SomeGap

  /** The end of the run of whitespace starting at `i`. */
  function WsRunEnd(s: string, i: nat): (j: nat)
    requires i <= |s|
    decreases |s| - i
    ensures i <= j <= |s|
    ensures AllWs(s[i..j])
    ensures j < |s| ==> !IsWs(s[j])
  {
    if i < |s| && IsWs(s[i]) then WsRunEnd(s, i + 1) else i
  }

  /** The pattern matches at the start of `s`: the keyword, a whitespace run
      the gap admits, then a non-whitespace character. */
  predicate MatchesAtStart(s: string, kw: string, gap: Gap) {
    && |kw| <= |s|
    && s[..|kw|] == kw
    && var j := WsRunEnd(s, |kw|);
    && j < |s|
    && (gap == NoGap ==> j == |kw|)
    && (gap == SomeGap ==> j > |kw|)
  }

  /** `.replace(/kw<gap>([^\s])/g, 'kw $1')`: each match becomes the keyword,
      one space and the captured character; scanning resumes after it. */
  function Respace(s: string, kw: string, gap: Gap): string
    requires kw != []
    decreases |s|
  {
    if s == [] then []
    else if MatchesAtStart(s, kw, gap) then
      var j := WsRunEnd(s, |kw|);
      kw + " " + [s[j]] + Respace(s[j + 1..], kw, gap)
    else
      [s[0]] + Respace(s[1..], kw, gap)
  }

  // ----------------------------------------------------- the two passes

  const Prefix: string := "{exec:function(){"
  const Suffix: string := "},cleanup:function(){},handlers:{}}"

  /** The first half of `#generateCode`: trim, then one space between each
      keyword and what follows it (`return\s*`, `let\s+`, `var\s+`,
      `const\s+`). */
  function Normalize(generate: string): string {
    var t := Trim(generate);
    Respace(Respace(Respace(Respace(t, "return", AnyGap), "let", SomeGap), "var", SomeGap), "const", SomeGap)
  }

  /** `#generateCode` as written: the normalized text between the opening
      and closing parts of the object literal. */
  function GenerateCodeAsWritten(b: Blueprint): string {
    Prefix + Normalize(b.generate) + Suffix
  }

  /** `#generateCode` with the closing part on a line of its own, so that a
      line comment at the end of the generator text ends before it. */
  function GenerateCode(b: Blueprint): string {
    Prefix + Normalize(b.generate) + "\n" + Suffix
  }

  /** The four keyword passes of `#optimize`, applied to text without
      whitespace. */
  function RespaceKeywords(s: string): string {
    Respace(Respace(Respace(Respace(s, "return", NoGap), "let", NoGap), "var", NoGap), "const", NoGap)
  }

  /** `#optimize`: comments out, whitespace out, one space back after each
      keyword directly followed by a character, then trim. */
  function Optimize(code: string): string {
    Trim(RespaceKeywords(RemoveWs(StripComments(code))))
  }

  /** What the generator caches and measures for a blueprint:
      `#optimize(#generateCode(blueprint))`. */
  function Compile(b: Blueprint): string {
    Optimize(GenerateCodeAsWritten(b))
  }

  /** The same with the closing part on a line of its own. */
  function CompileIntended(b: Blueprint): string {
    Optimize(GenerateCode(b))
  }

  // ============================================================ lemmas

  lemma RemoveWsConcat(a: string, b: string)
    ensures RemoveWs(a + b) == RemoveWs(a) + RemoveWs(b)
  {
    if a != [] {
      assert (a + b)[1..] == a[1..] + b;
      RemoveWsConcat(a[1..], b);
    } else {
      assert a + b == b;
    }
  }

  lemma RemoveWsOfAllWs(s: string)
    requires AllWs(s)
    ensures RemoveWs(s) == []
  {
  }

  lemma RemoveWsOfNoWs(s: string)
    requires NoWs(s)
    ensures RemoveWs(s) == s
  {
  }

  /** A keyword pass only adds and removes whitespace: with all whitespace
      taken out, its result is its input. */
  lemma {:induction false} RespaceOnlyMovesWs(s: string, kw: string, gap: Gap)
    requires kw != [] && NoWs(kw)
    ensures RemoveWs(Respace(s, kw, gap)) == RemoveWs(s)
    decreases |s|
  {
    if s == [] {
    } else if MatchesAtStart(s, kw, gap) {
      var j := WsRunEnd(s, |kw|);
      var rest := s[j + 1..];
      assert s == kw + s[|kw|..j] + [s[j]] + rest;
      RespaceOnlyMovesWs(rest, kw, gap);
      RemoveWsConcat(kw + s[|kw|..j] + [s[j]], rest);
      RemoveWsConcat(kw + s[|kw|..j], [s[j]]);
      RemoveWsConcat(kw, s[|kw|..j]);
      RemoveWsOfAllWs(s[|kw|..j]);
      RemoveWsOfNoWs(kw);
      RemoveWsConcat(kw + " " + [s[j]], Respace(rest, kw, gap));
      RemoveWsConcat(kw + " ", [s[j]]);
      RemoveWsConcat(kw, " ");
    } else {
      assert s == [s[0]] + s[1..];
      RespaceOnlyMovesWs(s[1..], kw, gap);
      RemoveWsConcat([s[0]], Respace(s[1..], kw, gap));
      RemoveWsConcat([s[0]], s[1..]);
    }
  }

  /** Every whitespace character is a plain space. */
  predicate SpacesOnly(s: string) {
    forall i :: 0 <= i < |s| && IsWs(s[i]) ==> s[i] == ' '
  }

  /** No two whitespace characters are adjacent. */
  predicate NoWsPair(s: string) {
    forall i :: 0 <= i < |s| - 1 ==> !(IsWs(s[i]) && IsWs(s[i + 1]))
  }

  /** Neither end is whitespace. */
  predicate Trimmed(s: string) {
    s != [] ==> !IsWs(s[0]) && !IsWs(s[|s| - 1])
  }

  /** The shape `#optimize` promises: no leading or trailing whitespace, no
      two whitespace characters in a row, and none but the plain space. */
  predicate Tidy(s: string) {
    SpacesOnly(s) && NoWsPair(s) && Trimmed(s)
  }

  lemma SpacingConcat(a: string, b: string)
    requires SpacesOnly(a) && SpacesOnly(b) && NoWsPair(a) && NoWsPair(b)
    requires a != [] && b != [] ==> !(IsWs(a[|a| - 1]) && IsWs(b[0]))
    ensures SpacesOnly(a + b) && NoWsPair(a + b)
  {
    var ab := a + b;
    forall i | 0 <= i < |ab| - 1
      ensures !(IsWs(ab[i]) && IsWs(ab[i + 1]))
    {
      if i + 1 < |a| {
        assert ab[i] == a[i] && ab[i + 1] == a[i + 1];
      } else if i >= |a| {
        assert ab[i] == b[i - |a|] && ab[i + 1] == b[i + 1 - |a|];
      }
    }
  }

  /** The text a keyword match is replaced with is well spaced. */
  lemma ReplacementSpacing(kw: string, c: char)
    requires kw != [] && NoWs(kw) && !IsWs(c)
    ensures var head := kw + " " + [c];
      SpacesOnly(head) && NoWsPair(head) && head[0] == kw[0] && head[|head| - 1] == c
  {
    var head := kw + " " + [c];
    forall i | 0 <= i < |head| - 1 ensures !(IsWs(head[i]) && IsWs(head[i + 1])) {
      if i < |kw| {
        assert head[i] == kw[i];
      } else {
        assert head[i + 1] == c;
      }
    }
  }

  lemma ReplacementThenTail(kw: string, c: char, tail: string)
    requires kw != [] && NoWs(kw) && !IsWs(c)
    requires SpacesOnly(tail) && NoWsPair(tail)
    ensures var r := kw + " " + [c] + tail;
      && SpacesOnly(r) && NoWsPair(r) && r[0] == kw[0]
      && r[|r| - 1] == (if tail == [] then c else tail[|tail| - 1])
  {
    ReplacementSpacing(kw, c);
    SpacingConcat(kw + " " + [c], tail);
  }

  /** The keyword passes of `#optimize` keep the spacing shape and the
      first and last characters. */
  lemma {:induction false} RespaceKeepsSpacing(s: string, kw: string)
    requires kw != [] && NoWs(kw)
    requires SpacesOnly(s) && NoWsPair(s)
    ensures var r := Respace(s, kw, NoGap);
      && SpacesOnly(r) && NoWsPair(r)
      && (s != [] ==> r != [] && r[0] == s[0] && r[|r| - 1] == s[|s| - 1])
    decreases |s|
  {
    if s == [] {
    } else if MatchesAtStart(s, kw, NoGap) {
      var rest := s[|kw| + 1..];
      assert WsRunEnd(s, |kw|) == |kw|;
      RespaceKeepsSpacing(rest, kw);
      assert s[0] == s[..|kw|][0] == kw[0];
      ReplacementThenTail(kw, s[|kw|], Respace(rest, kw, NoGap));
    } else {
      var tail := Respace(s[1..], kw, NoGap);
      RespaceKeepsSpacing(s[1..], kw);
      SpacingConcat([s[0]], tail);
    }
  }

  lemma KeywordsHaveNoWs()
    ensures NoWs("return") && NoWs("let") && NoWs("var") && NoWs("const")
  {
  }

  /** The output of `#optimize` is tidy: only single plain spaces between
      non-whitespace characters, none at either end; and its final trim
      changes nothing. */
  lemma OptimizeIsTidy(code: string)
    ensures Tidy(Optimize(code))
    ensures Optimize(code) == RespaceKeywords(RemoveWs(StripComments(code)))
  {
    var t0 := RemoveWs(StripComments(code));
    var t1 := Respace(t0, "return", NoGap);
    var t2 := Respace(t1, "let", NoGap);
    var t3 := Respace(t2, "var", NoGap);
    var t4 := Respace(t3, "const", NoGap);
    KeywordsHaveNoWs();
    RespaceKeepsSpacing(t0, "return");
    RespaceKeepsSpacing(t1, "let");
    RespaceKeepsSpacing(t2, "var");
    RespaceKeepsSpacing(t3, "const");
    TrimKeepsTrimmed(t4);
  }

  /** `#optimize` removes comments and whitespace and adds only spaces:
      with whitespace taken out, its output is the comment-free input. */
  lemma OptimizeKeepsText(code: string)
    ensures RemoveWs(Optimize(code)) == RemoveWs(StripComments(code))
  {
    OptimizeIsTidy(code);
    var t0 := RemoveWs(StripComments(code));
    var t1 := Respace(t0, "return", NoGap);
    var t2 := Respace(t1, "let", NoGap);
    var t3 := Respace(t2, "var", NoGap);
    KeywordsHaveNoWs();
    RespaceOnlyMovesWs(t0, "return", NoGap);
    RespaceOnlyMovesWs(t1, "let", NoGap);
    RespaceOnlyMovesWs(t2, "var", NoGap);
    RespaceOnlyMovesWs(t3, "const", NoGap);
    RemoveWsOfNoWs(t0);
  }

  // ---------------------------------------------- where spaces go back

  /** Every space comes directly after `kw` and directly before a
      character that is not whitespace. */
  predicate SpacesAfterKeyword(r: string, kw: string) {
    forall i :: 0 <= i < |r| && r[i] == ' ' ==>
      |kw| <= i < |r| - 1 && r[i - |kw|..i] == kw && !IsWs(r[i + 1])
  }

  lemma SpacesAfterKeywordCons(c: char, t: string, kw: string)
    requires !IsWs(c) && SpacesAfterKeyword(t, kw)
    ensures SpacesAfterKeyword([c] + t, kw)
  {
    var r := [c] + t;
    forall i | 0 <= i < |r| && r[i] == ' '
      ensures |kw| <= i < |r| - 1 && r[i - |kw|..i] == kw && !IsWs(r[i + 1])
    {
      assert t[i - 1] == r[i];
      assert r[i - |kw|..i] == t[i - 1 - |kw|..i - 1];
      assert r[i + 1] == t[i];
    }
  }

  lemma SpacesAfterKeywordReplacement(kw: string, u: string)
    requires NoWs(kw) && u != [] && !IsWs(u[0]) && SpacesAfterKeyword(u, kw)
    ensures SpacesAfterKeyword(kw + " " + u, kw)
  {
    var r := kw + " " + u;
    forall i | 0 <= i < |r| && r[i] == ' '
      ensures |kw| <= i < |r| - 1 && r[i - |kw|..i] == kw && !IsWs(r[i + 1])
    {
      if i == |kw| {
        assert r[..|kw|] == kw;
        assert r[i + 1] == u[0];
      } else {
        assert i > |kw|;
        var j := i - |kw| - 1;
        assert u[j] == r[i];
        assert r[i - |kw|..i] == u[j - |kw|..j];
        assert r[i + 1] == u[j + 1];
      }
    }
  }

  /** One keyword pass over whitespace-free text puts a space only directly
      after the keyword, and before a character that is not whitespace. */
  lemma {:induction false} KeywordPassSpacing(s: string, kw: string)
    requires kw != [] && NoWs(kw) && NoWs(s)
    ensures SpacesAfterKeyword(Respace(s, kw, NoGap), kw)
    decreases |s|
  {
    if s == [] {
    } else if MatchesAtStart(s, kw, NoGap) {
      assert WsRunEnd(s, |kw|) == |kw|;
      var c := s[|kw|];
      var rest := s[|kw| + 1..];
      var t := Respace(rest, kw, NoGap);
      KeywordPassSpacing(rest, kw);
      SpacesAfterKeywordCons(c, t, kw);
      SpacesAfterKeywordReplacement(kw, [c] + t);
      assert Respace(s, kw, NoGap) == kw + " " + ([c] + t);
    } else {
      KeywordPassSpacing(s[1..], kw);
      SpacesAfterKeywordCons(s[0], Respace(s[1..], kw, NoGap), kw);
    }
  }

  /** On the `NoGap` pattern a pass never shortens the text. */
  lemma {:induction false} RespaceLength(s: string, kw: string)
    requires kw != []
    ensures |Respace(s, kw, NoGap)| >= |s|
    decreases |s|
  {
    if s == [] {
    } else if MatchesAtStart(s, kw, NoGap) {
      assert WsRunEnd(s, |kw|) == |kw|;
      RespaceLength(s[|kw| + 1..], kw);
    } else {
      RespaceLength(s[1..], kw);
    }
  }

  /** A keyword pass changes the text exactly when somewhere the keyword is
      directly followed by a character that is not whitespace. */
  lemma {:induction false} PassChangesIffMatch(s: string, kw: string)
    requires kw != []
    ensures Respace(s, kw, NoGap) == s <==>
      forall k :: 0 <= k <= |s| ==> !MatchesAtStart(s[k..], kw, NoGap)
    decreases |s|
  {
    if s == [] {
      assert s[0..] == s;
    } else if MatchesAtStart(s, kw, NoGap) {
      assert WsRunEnd(s, |kw|) == |kw|;
      RespaceLength(s[|kw| + 1..], kw);
      assert s[0..] == s;
    } else {
      PassChangesIffMatch(s[1..], kw);
      assert s[0..] == s;
      forall k | 1 <= k <= |s| ensures s[k..] == s[1..][k - 1..] {
      }
      if Respace(s, kw, NoGap) == s {
        assert Respace(s[1..], kw, NoGap) == Respace(s, kw, NoGap)[1..];
      }
    }
  }

  /** The last characters of the four keywords `#optimize` spaces. */
  const KeywordEnds: set<char> := {'n', 't', 'r'}

  /** Every space after the first character comes right after a
      character of `ends`. */
  predicate SpacesFollow(s: string, ends: set<char>) {
    forall i :: 0 < i < |s| && s[i] == ' ' ==> s[i - 1] in ends
  }

  lemma SpacesFollowTail(s: string, k: nat, ends: set<char>)
    requires SpacesFollow(s, ends) && k <= |s|
    ensures SpacesFollow(s[k..], ends)
  {
    var t := s[k..];
    forall i | 0 < i < |t| && t[i] == ' ' ensures t[i - 1] in ends {
      assert t[i] == s[k + i] && t[i - 1] == s[k + i - 1];
    }
  }

  lemma SpacesFollowConcat(a: string, b: string, ends: set<char>)
    requires SpacesFollow(a, ends) && SpacesFollow(b, ends)
    requires a != [] && b != [] && b[0] == ' ' ==> a[|a| - 1] in ends
    ensures SpacesFollow(a + b, ends)
  {
    var s := a + b;
    forall i | 0 < i < |s| && s[i] == ' ' ensures s[i - 1] in ends {
      if i < |a| {
        assert s[i] == a[i] && s[i - 1] == a[i - 1];
      } else if i > |a| {
        assert s[i] == b[i - |a|] && s[i - 1] == b[i - 1 - |a|];
      } else {
        assert s[i] == b[0] && s[i - 1] == a[|a| - 1];
      }
    }
  }

  /** The text a match becomes keeps its space after the keyword. */
  lemma ReplacementFollow(kw: string, ends: set<char>)
    requires kw != [] && NoWs(kw) && kw[|kw| - 1] in ends
    ensures SpacesFollow(kw + " ", ends)
  {
    var h := kw + " ";
    forall i | 0 < i < |h| && h[i] == ' ' ensures h[i - 1] in ends {
      assert h[i - 1] == kw[|kw| - 1];
    }
  }

  /** A pass keeps every space after the character it followed, and puts
      its own after the keyword's last character. */
  lemma {:induction false} RespaceSpacesFollow(s: string, kw: string, ends: set<char>)
    requires kw != [] && NoWs(kw) && kw[|kw| - 1] in ends
    requires SpacesFollow(s, ends)
    ensures SpacesFollow(Respace(s, kw, NoGap), ends)
    decreases |s|
  {
    if s == [] {
    } else if MatchesAtStart(s, kw, NoGap) {
      assert WsRunEnd(s, |kw|) == |kw|;
      var c := s[|kw|];
      var rest := s[|kw| + 1..];
      var t := Respace(rest, kw, NoGap);
      SpacesFollowTail(s, |kw| + 1, ends);
      RespaceSpacesFollow(rest, kw, ends);
      if rest != [] {
        RespaceKeepsFirst(rest, kw, NoGap);
        assert t[0] == s[|kw| + 1];
      }
      SpacesFollowConcat([c], t, ends);
      ReplacementFollow(kw, ends);
      SpacesFollowConcat(kw + " ", [c] + t, ends);
      assert Respace(s, kw, NoGap) == (kw + " ") + ([c] + t);
    } else {
      var t := Respace(s[1..], kw, NoGap);
      SpacesFollowTail(s, 1, ends);
      RespaceSpacesFollow(s[1..], kw, ends);
      if |s| > 1 {
        RespaceKeepsFirst(s[1..], kw, NoGap);
      }
      SpacesFollowConcat([s[0]], t, ends);
    }
  }

  /** Every space `#optimize` leaves comes right after the last letter of
      one of its keywords (`n`, `t` or `r`). The passes run one after
      another, so a later pass may insert a space inside an earlier
      keyword (see `LaterPassSplitsKeyword`): the space need not follow a
      whole keyword. */
  lemma OptimizeSpacesFollowKeywordEnd(code: string)
    ensures Optimize(code) == [] || Optimize(code)[0] != ' '
    ensures SpacesFollow(Optimize(code), KeywordEnds)
  {
    var t0 := RemoveWs(StripComments(code));
    var t1 := Respace(t0, "return", NoGap);
    var t2 := Respace(t1, "let", NoGap);
    var t3 := Respace(t2, "var", NoGap);
    var t4 := Respace(t3, "const", NoGap);
    OptimizeIsTidy(code);
    KeywordsHaveNoWs();
    assert SpacesFollow(t0, KeywordEnds);
    RespaceSpacesFollow(t0, "return", KeywordEnds);
    RespaceSpacesFollow(t1, "let", KeywordEnds);
    RespaceSpacesFollow(t2, "var", KeywordEnds);
    RespaceSpacesFollow(t3, "const", KeywordEnds);
  }

  /** The generator text `vareturn` followed by a digit. */
  function SplitExample(d: char): string {
    "vareturn" + [d]
  }

  lemma SplitExampleIsPlain(d: char)
    requires '0' <= d <= '9'
    ensures StripComments(SplitExample(d)) == SplitExample(d)
    ensures RemoveWs(SplitExample(d)) == SplitExample(d)
  {
    var s := SplitExample(d);
    assert '/' !in s;
    assert NoWs(s);
    RemoveWsOfNoWs(s);
  }

  lemma ReturnPassOnExample(d: char)
    requires '0' <= d <= '9'
    ensures Respace(SplitExample(d), "return", NoGap) == "vareturn " + [d]
  {
    var t := "return" + [d];
    RespaceSkipsHead("va", t, "return", NoGap);
    assert "va" + t == SplitExample(d);
    assert t[..6] == "return";
    assert WsRunEnd(t, 6) == 6;
    assert t[7..] == [];
    assert "va" + ("return" + " " + [t[6]]) == "vareturn " + [d];
  }

  lemma VarPassOnExample(d: char)
    requires '0' <= d <= '9'
    ensures Respace("vareturn " + [d], "var", NoGap) == "var eturn " + [d]
  {
    var t := "vareturn " + [d];
    assert t[..3] == "var";
    assert WsRunEnd(t, 3) == 3;
    assert t[4..] == "turn " + [d];
    RespaceWithoutKeywordChar("turn " + [d], "var", NoGap, 0);
    assert "var" + " " + [t[3]] + ("turn " + [d]) == "var eturn " + [d];
  }

  /** `vareturn1` (any digit in place of 1): the `return` pass gives
      `vareturn 1`, then the `var` pass puts a space inside `return`, so
      `#optimize` yields `var eturn 1`, whose second space follows `eturn`. */
  lemma LaterPassSplitsKeyword(d: char)
    requires '0' <= d <= '9'
    ensures Optimize(SplitExample(d)) == "var eturn " + [d]
  {
    var s := SplitExample(d);
    var t1 := "vareturn " + [d];
    var t3 := "var eturn " + [d];
    SplitExampleIsPlain(d);
    ReturnPassOnExample(d);
    RespaceWithoutKeywordChar(t1, "let", NoGap, 0);
    VarPassOnExample(d);
    RespaceWithoutKeywordChar(t3, "const", NoGap, 0);
    assert RespaceKeywords(s) == t3;
    TrimKeepsTrimmed(t3);
  }

  // ----------------------------------------------- comment-removal facts

  /** Text before the first slash passes through untouched. */
  lemma {:induction false} StripKeepsSlashFreePrefix(a: string, b: string)
    requires '/' !in a
    ensures StripComments(a + b) == a + StripComments(b)
    decreases |a|
  {
    if a != [] {
      assert (a + b)[0] == a[0] != '/';
      assert (a + b)[1..] == a[1..] + b;
      StripKeepsSlashFreePrefix(a[1..], b);
    } else {
      assert a + b == b;
    }
  }

  /** A line comment is dropped up to the line terminator, which stays. */
  lemma LineCommentDropped(t: string, u: string)
    requires forall i :: 0 <= i < |t| ==> !IsLineTerminator(t[i])
    requires u != [] && IsLineTerminator(u[0])
    ensures StripComments("//" + t + u) == StripComments(u)
  {
    var s := "//" + t + u;
    assert s[2..][|t|] == u[0];
    assert LineEnd(s, 2) == |t| + 2;
    assert s[|t| + 2..] == u;
  }

  /** A closed block comment is dropped whole. */
  lemma BlockCommentDropped(t: string, u: string)
    requires '/' !in t
    ensures StripComments("/*" + t + "*/" + u) == StripComments(u)
  {
    var s := "/*" + t + "*/" + u;
    var k := |t| + 2;
    assert s[k] == '*' && s[k + 1] == '/';
    forall m | 2 <= m < k ensures !(s[m] == '*' && s[m + 1] == '/') {
      if m + 1 < k {
        assert s[m + 1] == t[m - 1];
      }
    }
    assert BlockClose(s, 2) == Some(k);
    assert s[k + 2..] == u;
  }

  predicate EndsWith(s: string, t: string) {
    |t| <= |s| && s[|s| - |t|..] == t
  }

  /** Comment removal cannot reach past a line terminator into slash-free
      text that follows: a line comment stops at the terminator, and a
      block comment closes before it or not at all. */
  lemma {:induction false} StripKeepsGuardedTail(x: string, tail: string)
    requires tail != [] && IsLineTerminator(tail[0]) && '/' !in tail
    ensures EndsWith(StripComments(x + tail), tail)
    decreases |x|
  {
    var s := x + tail;
    if x == [] {
      assert s == tail;
    } else if |s| >= 2 && s[0] == '/' && s[1] == '*' && BlockClose(s, 2).Some? {
      var k := BlockClose(s, 2).value;
      assert s[k + 1] == '/';
      assert s[k + 2..] == x[k + 2..] + tail;
      StripKeepsGuardedTail(x[k + 2..], tail);
    } else if |s| >= 2 && s[0] == '/' && s[1] == '/' {
      assert s[|x|] == tail[0];
      var e := LineEnd(s, 2);
      assert e <= |x|;
      assert s[e..] == x[e..] + tail;
      StripKeepsGuardedTail(x[e..], tail);
    } else {
      assert s[1..] == x[1..] + tail;
      StripKeepsGuardedTail(x[1..], tail);
    }
  }

  /** Comment removal keeps a slash-free head and a slash-free tail that
      starts on a new line, whatever lies between them. */
  lemma StripKeepsEnds(head: string, body: string, tail: string)
    requires '/' !in head
    requires tail != [] && IsLineTerminator(tail[0]) && '/' !in tail
    ensures var s := StripComments(head + body + tail);
      && |s| >= |head| + |tail| && s[..|head|] == head
      && EndsWith(s, tail)
  {
    assert head + body + tail == head + (body + tail);
    StripKeepsSlashFreePrefix(head, body + tail);
    StripKeepsGuardedTail(body, tail);
    var r := StripComments(body + tail);
    assert StripComments(head + body + tail) == head + r;
    assert (head + r)[|head + r| - |tail|..] == r[|r| - |tail|..];
  }

  lemma WrapperPartsSlashFree()
    ensures '/' !in Prefix
    ensures '/' !in Suffix
    ensures '/' !in "\n" + Suffix && IsLineTerminator(("\n" + Suffix)[0])
  {
  }

  /** With the closing part on its own line, comment removal keeps both
      parts of the object literal around the generator text, whatever the
      text contains. */
  lemma CommentsKeepWrapper(b: Blueprint)
    ensures var s := StripComments(GenerateCode(b));
      && |s| >= |Prefix| + |"\n" + Suffix| && s[..|Prefix|] == Prefix
      && EndsWith(s, "\n" + Suffix)
  {
    WrapperPartsSlashFree();
    assert GenerateCode(b) == Prefix + Normalize(b.generate) + ("\n" + Suffix);
    StripKeepsEnds(Prefix, Normalize(b.generate), "\n" + Suffix);
  }

  lemma SplitEnds(s: string, head: string, tail: string)
    requires |head| + |tail| <= |s| && s[..|head|] == head && EndsWith(s, tail)
    ensures s == head + s[|head|..|s| - |tail|] + tail
  {
  }

  lemma ConcatEnds(head: string, mid: string, tail: string)
    ensures var t := head + mid + tail;
      |t| >= |head| + |tail| && t[..|head|] == head && EndsWith(t, tail)
  {
  }

  /** Whitespace-free ends of a text are the ends of the text with its
      whitespace removed. */
  lemma RemoveWsKeepsEnds(s: string, head: string, tail: string)
    requires |head| + |tail| <= |s| && s[..|head|] == head && EndsWith(s, tail)
    requires NoWs(head)
    ensures var t := RemoveWs(s);
      && |t| >= |head| + |RemoveWs(tail)|
      && t[..|head|] == head
      && EndsWith(t, RemoveWs(tail))
  {
    var mid := s[|head|..|s| - |tail|];
    SplitEnds(s, head, tail);
    RemoveWsConcat(head + mid, tail);
    RemoveWsConcat(head, mid);
    RemoveWsOfNoWs(head);
    ConcatEnds(head, RemoveWs(mid), RemoveWs(tail));
  }

  /** Printable ASCII is not whitespace. */
  lemma PrintableIsNotWs(s: string)
    requires forall i :: 0 <= i < |s| ==> '!' <= s[i] <= '~'
    ensures NoWs(s)
  {
  }

  lemma WrapperPartsHaveNoWs()
    ensures NoWs(Prefix) && NoWs(Suffix)
  {
    PrintableIsNotWs(Prefix);
    PrintableIsNotWs(Suffix);
  }

  lemma NewlineThen(t: string)
    requires NoWs(t)
    ensures RemoveWs("\n" + t) == t
  {
    assert ("\n" + t)[0] == '\n' && ("\n" + t)[1..] == t;
    RemoveWsOfNoWs(t);
  }

  /** Whitespace aside, the intended compilation begins with the opening
      part of the object literal and ends with its closing part, whatever
      the generator text contains. */
  lemma IntendedKeepsWrapper(b: Blueprint)
    ensures var t := RemoveWs(CompileIntended(b));
      && |t| >= |Prefix| + |Suffix|
      && t[..|Prefix|] == Prefix
      && EndsWith(t, Suffix)
  {
    var code := GenerateCode(b);
    CommentsKeepWrapper(b);
    WrapperPartsHaveNoWs();
    NewlineThen(Suffix);
    RemoveWsKeepsEnds(StripComments(code), Prefix, "\n" + Suffix);
    OptimizeKeepsText(code);
  }

  /** Whitespace-free text passes through whitespace removal at the front. */
  lemma RemoveWsKeepsNoWsHead(head: string, t: string)
    requires NoWs(head)
    ensures RemoveWs(head + t) == head + RemoveWs(t)
  {
    RemoveWsConcat(head, t);
    RemoveWsOfNoWs(head);
  }

  /** Whatever the generator text, compiled code begins (whitespace aside)
      with the opening part of the object literal, so it is never empty and
      the generator's cache lookup, which treats an empty entry as missing,
      always finds what it stored. */
  lemma CompiledIsNonEmpty(b: Blueprint)
    ensures var t := RemoveWs(Compile(b));
      |t| >= |Prefix| && t[..|Prefix|] == Prefix
    ensures Compile(b) != []
  {
    var rest := Normalize(b.generate) + Suffix;
    var code := GenerateCodeAsWritten(b);
    assert code == Prefix + rest;
    WrapperPartsSlashFree();
    StripKeepsSlashFreePrefix(Prefix, rest);
    WrapperPartsHaveNoWs();
    RemoveWsKeepsNoWsHead(Prefix, StripComments(rest));
    OptimizeKeepsText(code);
    assert RemoveWs(Compile(b)) == Prefix + RemoveWs(StripComments(rest));
  }

  // ------------------------------------------ text that opens no comment

  /** A character that can follow a slash without opening a comment and
      without being dropped by trimming or by whitespace removal. */
  predicate SafeAfterSlash(c: char) {
    c != '/' && c != '*' && !IsWs(c)
  }

  /** Every slash is followed by a character that keeps it a plain slash:
      the text holds no line or block comment opener, and no slash ends it or stands
      before whitespace. */
  predicate OpensNoComment(s: string) {
    forall i :: 0 <= i < |s| && s[i] == '/' ==> i + 1 < |s| && SafeAfterSlash(s[i + 1])
  }

  lemma SlashFreeOpensNoComment(s: string)
    requires '/' !in s
    ensures OpensNoComment(s)
  {
    forall i | 0 <= i < |s| ensures s[i] != '/' {
      assert s[i] in s;
    }
  }

  lemma OpensNoCommentCons(c: char, t: string)
    requires OpensNoComment(t)
    requires c == '/' ==> t != [] && SafeAfterSlash(t[0])
    ensures OpensNoComment([c] + t)
  {
    var s := [c] + t;
    forall i | 0 <= i < |s| && s[i] == '/' ensures i + 1 < |s| && SafeAfterSlash(s[i + 1]) {
      if i > 0 {
        assert s[i] == t[i - 1];
      }
    }
  }

  lemma OpensNoCommentTail(s: string, k: nat)
    requires OpensNoComment(s) && k <= |s|
    ensures OpensNoComment(s[k..])
  {
    var t := s[k..];
    forall i | 0 <= i < |t| && t[i] == '/' ensures i + 1 < |t| && SafeAfterSlash(t[i + 1]) {
      assert s[k + i] == '/';
    }
  }

  lemma OpensNoCommentConcat(a: string, b: string)
    requires OpensNoComment(a) && OpensNoComment(b)
    ensures OpensNoComment(a + b)
  {
    var s := a + b;
    forall i | 0 <= i < |s| && s[i] == '/' ensures i + 1 < |s| && SafeAfterSlash(s[i + 1]) {
      if i < |a| {
        assert a[i] == '/';
      } else {
        assert b[i - |a|] == '/';
      }
    }
  }

  /** Comment removal leaves text that opens no comment alone. */
  lemma {:induction false} StripOpensNoComment(s: string)
    requires OpensNoComment(s)
    ensures StripComments(s) == s
    decreases |s|
  {
    if s != [] {
      assert s[0] == '/' ==> SafeAfterSlash(s[1]);
      OpensNoCommentTail(s, 1);
      StripOpensNoComment(s[1..]);
    }
  }

  /** A keyword pass keeps the first character. */
  lemma RespaceKeepsFirst(s: string, kw: string, gap: Gap)
    requires kw != [] && s != []
    ensures Respace(s, kw, gap) != [] && Respace(s, kw, gap)[0] == s[0]
  {
    if MatchesAtStart(s, kw, gap) {
      assert s[0] == s[..|kw|][0] == kw[0];
    }
  }

  /** A pass whose keyword has no slash keeps every slash followed by the
      character that followed it. */
  lemma {:induction false} RespaceOpensNoComment(s: string, kw: string, gap: Gap)
    requires kw != [] && '/' !in kw
    requires OpensNoComment(s)
    ensures OpensNoComment(Respace(s, kw, gap))
    decreases |s|
  {
    if s == [] {
    } else if MatchesAtStart(s, kw, gap) {
      var j := WsRunEnd(s, |kw|);
      var rest := s[j + 1..];
      var tail := Respace(rest, kw, gap);
      OpensNoCommentTail(s, j + 1);
      RespaceOpensNoComment(rest, kw, gap);
      if s[j] == '/' {
        assert s[j + 1] == rest[0];
        RespaceKeepsFirst(rest, kw, gap);
      }
      OpensNoCommentCons(s[j], tail);
      SlashFreeOpensNoComment(kw + " ");
      OpensNoCommentConcat(kw + " ", [s[j]] + tail);
      assert kw + " " + [s[j]] + tail == (kw + " ") + ([s[j]] + tail);
    } else {
      var tail := Respace(s[1..], kw, gap);
      OpensNoCommentTail(s, 1);
      RespaceOpensNoComment(s[1..], kw, gap);
      if s[0] == '/' {
        RespaceKeepsFirst(s[1..], kw, gap);
      }
      OpensNoCommentCons(s[0], tail);
    }
  }

  /** Trimming keeps text that opens no comment so: a slash is never
      followed by the whitespace trimming removes. */
  lemma TrimOpensNoComment(s: string)
    requires OpensNoComment(s)
    ensures OpensNoComment(Trim(s))
  {
    TrimCutsOnlyWs(s);
    var i := LeadingWs(s);
    var t := Trim(s);
    forall m | i + |t| <= m < |s| ensures IsWs(s[m]) {
      assert s[m] == s[i + |t|..][m - (i + |t|)];
    }
    forall k | 0 <= k < |t| && t[k] == '/' ensures k + 1 < |t| && SafeAfterSlash(t[k + 1]) {
      assert s[i + k] == t[k] == '/';
      assert i + k + 1 < |s| && SafeAfterSlash(s[i + k + 1]);
      assert !IsWs(s[i + k + 1]);
      assert t[k + 1] == s[i + k + 1];
    }
  }

  lemma KeywordsHaveNoSlash()
    ensures '/' !in "return" && '/' !in "let" && '/' !in "var" && '/' !in "const"
  {
  }

  /** Normalization keeps generator text that opens no comment so. */
  lemma NormalizeOpensNoComment(g: string)
    requires OpensNoComment(g)
    ensures OpensNoComment(Normalize(g))
  {
    var t := Trim(g);
    var t1 := Respace(t, "return", AnyGap);
    var t2 := Respace(t1, "let", SomeGap);
    var t3 := Respace(t2, "var", SomeGap);
    KeywordsHaveNoSlash();
    TrimOpensNoComment(g);
    RespaceOpensNoComment(t, "return", AnyGap);
    RespaceOpensNoComment(t1, "let", SomeGap);
    RespaceOpensNoComment(t2, "var", SomeGap);
    RespaceOpensNoComment(t3, "const", SomeGap);
  }

  /** For generator text that opens no comment, compiled code keeps (with
      whitespace aside) the opening and the closing parts of the object
      literal: the source's wrapping loses nothing on such text. */
  lemma CompiledKeepsWrapper(b: Blueprint)
    requires OpensNoComment(b.generate)
    ensures var t := RemoveWs(Compile(b));
      && |t| >= |Prefix| + |Suffix|
      && t[..|Prefix|] == Prefix
      && EndsWith(t, Suffix)
  {
    var n := Normalize(b.generate);
    var code := GenerateCodeAsWritten(b);
    WrapperPartsSlashFree();
    SlashFreeOpensNoComment(Prefix);
    SlashFreeOpensNoComment(Suffix);
    NormalizeOpensNoComment(b.generate);
    OpensNoCommentConcat(Prefix, n);
    OpensNoCommentConcat(Prefix + n, Suffix);
    StripOpensNoComment(code);
    WrapperPartsHaveNoWs();
    ConcatEnds(Prefix, n, Suffix);
    RemoveWsKeepsEnds(code, Prefix, Suffix);
    RemoveWsOfNoWs(Suffix);
    OptimizeKeepsText(code);
  }

  // ------------------------------------------- the wrapper as written

  /** A pass whose keyword has a character the text lacks changes nothing. */
  lemma {:induction false} RespaceWithoutKeywordChar(s: string, kw: string, gap: Gap, m: nat)
    requires m < |kw| && kw[m] !in s
    ensures Respace(s, kw, gap) == s
    decreases |s|
  {
    if s != [] {
      assert kw[m] !in s[1..];
      RespaceWithoutKeywordChar(s[1..], kw, gap, m);
    }
  }

  /** No match can start inside text that lacks the keyword's first
      character. */
  lemma {:induction false} RespaceSkipsHead(a: string, t: string, kw: string, gap: Gap)
    requires kw != [] && kw[0] !in a
    ensures Respace(a + t, kw, gap) == a + Respace(t, kw, gap)
    decreases |a|
  {
    if a != [] {
      var s := a + t;
      assert s[0] == a[0] != kw[0];
      assert !MatchesAtStart(s, kw, gap);
      assert s[1..] == a[1..] + t;
      RespaceSkipsHead(a[1..], t, kw, gap);
    } else {
      assert a + t == t;
    }
  }

  /** A line comment that no line terminator follows runs to the end. */
  lemma LineCommentToEnd(t: string)
    requires forall i :: 0 <= i < |t| ==> !IsLineTerminator(t[i])
    ensures StripComments("//" + t) == []
  {
    var s := "//" + t;
    assert LineEnd(s, 2) == |s|;
  }

  /** A generator text whose last line is an (empty) comment: return a
      digit, then `//`. */
  function TrailingComment(d: char): string {
    "return " + [d] + "//"
  }

  lemma TrailingCommentReturnPass(d: char)
    requires '0' <= d <= '9'
    ensures Respace(TrailingComment(d), "return", AnyGap) == TrailingComment(d)
  {
    var g := TrailingComment(d);
    assert g[..6] == "return";
    assert WsRunEnd(g, 7) == 7;
    assert WsRunEnd(g, 6) == 7;
    assert g[8..] == "//";
    RespaceWithoutKeywordChar("//", "return", AnyGap, 0);
    assert "return" + " " + [g[7]] + "//" == g;
  }

  /** Text every step of the normalization leaves alone is normalized. */
  lemma NormalizeFixedPoint(g: string)
    requires Trim(g) == g
    requires Respace(g, "return", AnyGap) == g && Respace(g, "let", SomeGap) == g
    requires Respace(g, "var", SomeGap) == g && Respace(g, "const", SomeGap) == g
    ensures Normalize(g) == g
  {
  }

  lemma TrailingCommentTrimmed(d: char)
    requires '0' <= d <= '9'
    ensures Trim(TrailingComment(d)) == TrailingComment(d)
  {
    TrimKeepsTrimmed(TrailingComment(d));
  }

  lemma TrailingCommentLetPass(d: char)
    requires '0' <= d <= '9'
    ensures Respace(TrailingComment(d), "let", SomeGap) == TrailingComment(d)
  {
    RespaceWithoutKeywordChar(TrailingComment(d), "let", SomeGap, 0);
  }

  lemma TrailingCommentVarPass(d: char)
    requires '0' <= d <= '9'
    ensures Respace(TrailingComment(d), "var", SomeGap) == TrailingComment(d)
  {
    RespaceWithoutKeywordChar(TrailingComment(d), "var", SomeGap, 0);
  }

  lemma TrailingCommentConstPass(d: char)
    requires '0' <= d <= '9'
    ensures Respace(TrailingComment(d), "const", SomeGap) == TrailingComment(d)
  {
    RespaceWithoutKeywordChar(TrailingComment(d), "const", SomeGap, 3);
  }

  /** `return 1//` (any digit in place of 1) is its own normalization:
      it meets the premise of `AsWrittenLineCommentCuts` with the head
      `return 1` and an empty comment. */
  lemma TrailingCommentNormalized(d: char)
    requires '0' <= d <= '9'
    ensures Normalize(TrailingComment(d)) == TrailingComment(d)
  {
    TrailingCommentTrimmed(d);
    TrailingCommentReturnPass(d);
    TrailingCommentLetPass(d);
    TrailingCommentVarPass(d);
    TrailingCommentConstPass(d);
    NormalizeFixedPoint(TrailingComment(d));
  }

  lemma SuffixHasNoLineTerminator()
    ensures forall i :: 0 <= i < |Suffix| ==> !IsLineTerminator(Suffix[i])
  {
  }

  /** A line comment with no line terminator after it removes everything
      to the end. */
  lemma LineCommentCuts(head: string, rest: string)
    requires '/' !in head
    requires forall i :: 0 <= i < |rest| ==> !IsLineTerminator(rest[i])
    ensures StripComments(head + ("//" + rest)) == head
  {
    StripKeepsSlashFreePrefix(head, "//" + rest);
    LineCommentToEnd(rest);
  }

  /** As written, when the normalized generator text ends in a line comment,
      comment removal runs from it to the end of the code: the closing part
      of the object literal is gone, whatever the comment says. */
  lemma AsWrittenLineCommentCuts(b: Blueprint, head: string, note: string)
    requires Normalize(b.generate) == head + "//" + note
    requires '/' !in head
    requires forall i :: 0 <= i < |note| ==> !IsLineTerminator(note[i])
    ensures StripComments(GenerateCodeAsWritten(b)) == Prefix + head
  {
    var rest := note + Suffix;
    assert GenerateCodeAsWritten(b) == (Prefix + head) + ("//" + rest);
    WrapperPartsSlashFree();
    SuffixHasNoLineTerminator();
    assert forall i :: 0 <= i < |rest| ==> !IsLineTerminator(rest[i]) by {
      forall i | 0 <= i < |rest| ensures !IsLineTerminator(rest[i]) {
        if i >= |note| {
          assert rest[i] == Suffix[i - |note|];
        }
      }
    }
    LineCommentCuts(Prefix + head, rest);
  }
}
