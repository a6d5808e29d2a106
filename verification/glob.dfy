/** Whitelists (src/index.js `prepareRegex`, `toRegexArray`,
    `isWhitelisted`).

    A whitelist entry is a glob whose first `*` stands for one or more
    characters. The source turns it into a regular expression by escaping
    every regular-expression character and then rewriting the first escaped
    `\*` as `.+`. Here the regular expression is kept as text, and its meaning
    is given by a small interpreter (`Parse`, `AtomsMatch`) for exactly the
    fragment the gateway produces. `PrepareRegexMeaning` proves that this
    meaning agrees with the direct reading of the glob (`Compile`, `Matches`). */
module Glob {
  import opened Wrappers
  import opened Strings

  // ---------------------------------------------------------------------
  // Escaping
  // ---------------------------------------------------------------------

  /** `\s` of an ECMAScript regular expression: white space and line
      terminators. */
  predicate IsRegexWhitespace(c: char) {
    || '\U{0009}' <= c <= '\U{000D}'
    || c == ' ' || c == '\U{00A0}' || c == '\U{1680}'
    || '\U{2000}' <= c <= '\U{200A}'
    || c == '\U{2028}' || c == '\U{2029}' || c == '\U{202F}' || c == '\U{205F}'
    || c == '\U{3000}' || c == '\U{FEFF}'
  }

  /** The class `[-[\]{}()*+!<=:?.\/\\^$|#\s,]` that `prepareRegex`
      escapes. */
  predicate IsEscaped(c: char) {
    || c == '-' || c == '[' || c == ']' || c == '{' || c == '}' || c == '(' || c == ')'
    || c == '*' || c == '+' || c == '!' || c == '<' || c == '=' || c == ':' || c == '?'
    || c == '.' || c == '/' || c == '\\' || c == '^' || c == '$' || c == '|' || c == '#'
    || c == ','
    || IsRegexWhitespace(c)
  }

  /** `replace(/[…]/g, '\\$&')`: a backslash before every character of the
      class. */
  function Escape(p: string): string {
    if p == [] then "" else EscapeChar(p[0]) + Escape(p[1..])
  }

  function EscapeChar(c: char): string {
    if IsEscaped(c) then ['\\', c] else [c]
  }

  lemma {:induction false} EscapeAppend(a: string, b: string)
    ensures Escape(a + b) == Escape(a) + Escape(b)
  {
    if a == [] {
      assert a + b == b;
    } else {
      assert (a + b)[0] == a[0];
      assert (a + b)[1..] == a[1..] + b;
      EscapeAppend(a[1..], b);
    }
  }

  /** A `*` survives escaping only right after a backslash. */
  lemma {:induction false} StarInEscape(p: string)
    ensures '*' in Escape(p) <==> '*' in p
  {
    if p != [] {
      StarInEscape(p[1..]);
      assert p == [p[0]] + p[1..];
    }
  }

  /** `prepareRegex(glob)`: escape, then turn the first `\*` into `.+`. */
  function PrepareRegex(glob: string): string {
    ReplaceFirst(Escape(glob), "\\*", ".+")
  }

  // ---------------------------------------------------------------------
  // The regular-expression fragment and its meaning
  // ---------------------------------------------------------------------

  /** ECMAScript SyntaxCharacter: the characters with a meaning of their own
      in a pattern. */
  predicate IsSyntaxChar(c: char) {
    || c == '^' || c == '$' || c == '\\' || c == '.' || c == '*' || c == '+' || c == '?'
    || c == '(' || c == ')' || c == '[' || c == ']' || c == '{' || c == '}' || c == '|'
  }

  predicate IsAsciiAlnum(c: char) {
    'a' <= c <= 'z' || 'A' <= c <= 'Z' || '0' <= c <= '9'
  }

  /** One element of a pattern in the fragment: a character matched as
      itself, or `.+`. */
  datatype Atom = Exactly(c: char) | AnyPlus

  /** Reads a pattern of the fragment: `\c` for a character `c` that is not a
      letter or digit (an identity escape), `.+`, and characters without a
      meaning of their own. Any other construct is outside the fragment. */
  function Parse(re: string): Option<seq<Atom>>
    decreases |re|
  {
    if re == [] then Some([])
    else if re[0] == '\\' then
      if |re| < 2 || IsAsciiAlnum(re[1]) then None
      else Prepend(Exactly(re[1]), Parse(re[2..]))
    else if re[0] == '.' then
      if |re| < 2 || re[1] != '+' then None
      else Prepend(AnyPlus, Parse(re[2..]))
    else if IsSyntaxChar(re[0]) then None
    else Prepend(Exactly(re[0]), Parse(re[1..]))
  }

  function Prepend(a: Atom, rest: Option<seq<Atom>>): Option<seq<Atom>> {
    match rest
    case None => None
    case Some(atoms) => Some([a] + atoms)
  }

  /** The atoms match the whole of `s` (the source anchors every pattern
      with `^…$`); `.` never matches a line terminator. */
  predicate AtomsMatch(atoms: seq<Atom>, s: string)
    decreases |atoms|
  {
    if atoms == [] then s == []
    else match atoms[0]
      case Exactly(c) => s != [] && s[0] == c && AtomsMatch(atoms[1..], s[1..])
      case AnyPlus =>
        exists k :: 1 <= k <= |s| && NoLineTerminator(s[..k]) && AtomsMatch(atoms[1..], s[k..])
  }

  /** `new RegExp('^' + re + '$').test(s)` for a pattern of the fragment. */
  predicate RegexTest(re: string, s: string) {
    match Parse(re)
    case None => false
    case Some(atoms) => AtomsMatch(atoms, s)
  }

  // ---------------------------------------------------------------------
  // The direct reading of a glob
  // ---------------------------------------------------------------------

  /** A glob without `*` is a literal; otherwise it is the text before the
      first `*` and the text after it (where any later `*` is literal). */
  datatype Pattern = Literal(text: string) | Wild(prefix: string, suffix: string)

  function Compile(glob: string): Pattern {
    match IndexOf(glob, "*", 0)
    case None => Literal(glob)
    case Some(i) => Wild(glob[..i], glob[i + 1..])
  }

  /** A literal matches itself only; a wildcard pattern matches its prefix,
      then one or more characters that are not line terminators, then its
      suffix. */
  predicate Matches(p: Pattern, s: string) {
    match p
    case Literal(t) => s == t
    case Wild(a, b) =>
      && |a| + |b| < |s| && StartsWith(s, a) && s[|s| - |b|..] == b
      && NoLineTerminator(s[|a|..|s| - |b|])
  }

  /** A wildcard pattern matches exactly the strings `a + m + b` with `m`
      one or more characters, none a line terminator. */
  lemma MatchesWild(a: string, b: string, s: string)
    ensures Matches(Wild(a, b), s) <==> exists m :: |m| >= 1 && NoLineTerminator(m) && s == a + m + b
  {
    if Matches(Wild(a, b), s) {
      var m := s[|a|..|s| - |b|];
      assert s == s[..|a|] + m + s[|s| - |b|..];
    }
    if exists m :: |m| >= 1 && NoLineTerminator(m) && s == a + m + b {
      var m :| |m| >= 1 && NoLineTerminator(m) && s == a + m + b;
      assert s[..|a|] == a;
      assert s[|a|..|s| - |b|] == m;
      assert s[|s| - |b|..] == b;
    }
  }

  /** Where the first `*` is: a glob without one compiles to a literal, and
      one with it splits around it. */
  lemma CompileSplits(glob: string)
    ensures Compile(glob).Literal? <==> '*' !in glob
    ensures Compile(glob).Literal? ==> Compile(glob).text == glob
    ensures Compile(glob).Wild? ==>
              '*' !in Compile(glob).prefix && glob == Compile(glob).prefix + "*" + Compile(glob).suffix
  {
    IndexOfSpec(glob, "*", 0);
    match IndexOf(glob, "*", 0)
    case None =>
      forall j | 0 <= j < |glob| ensures glob[j] != '*' {
        assert !OccursAt(glob, "*", j);
        assert glob[j..j + 1] == [glob[j]];
      }
    case Some(i) =>
      assert glob[i..i + 1] == "*";
      assert glob == glob[..i] + "*" + glob[i + 1..];
      forall j | 0 <= j < i ensures glob[..i][j] != '*' {
        assert !OccursAt(glob, "*", j);
        assert glob[j..j + 1] == [glob[j]];
      }
  }

  // ---------------------------------------------------------------------
  // prepareRegex agrees with the direct reading
  // ---------------------------------------------------------------------

  /** The atoms of a literal text. */
  function Lits(t: string): (atoms: seq<Atom>)
    ensures |atoms| == |t|
  {
    seq(|t|, i requires 0 <= i < |t| => Exactly(t[i]))
  }

  lemma LitsCons(t: string)
    requires t != []
    ensures Lits(t) == [Exactly(t[0])] + Lits(t[1..])
  {
  }

  /** Every syntax character is escaped, and no escaped character is a
      letter or digit, so escaping never forms a class escape such as `\d`. */
  lemma EscapedChars(c: char)
    ensures IsSyntaxChar(c) ==> IsEscaped(c)
    ensures IsEscaped(c) ==> !IsAsciiAlnum(c)
  {
  }

  /** One escaped character reads back as itself. */
  lemma ParseEscapedChar(c: char, r: string)
    ensures Parse(EscapeChar(c) + r) == Prepend(Exactly(c), Parse(r))
  {
    EscapedChars(c);
    var re := EscapeChar(c) + r;
    if IsEscaped(c) {
      assert re[0] == '\\' && re[1] == c && re[2..] == r;
    } else {
      assert re[0] == c && re[1..] == r;
    }
  }

  /** Escaped text reads back as the literal text, whatever follows it. */
  lemma {:induction false} ParseEscape(t: string, r: string)
    requires Parse(r).Some?
    ensures Parse(Escape(t) + r) == Some(Lits(t) + Parse(r).value)
  {
    var v := Parse(r).value;
    if t == [] {
      assert Escape(t) + r == r;
      assert Lits(t) + v == v;
    } else {
      ParseEscape(t[1..], r);
      EscapeConsAppend(t, r);
      ParseEscapedChar(t[0], Escape(t[1..]) + r);
      LitsConsAppend(t, v);
    }
  }

  lemma EscapeConsAppend(t: string, r: string)
    requires t != []
    ensures Escape(t) + r == EscapeChar(t[0]) + (Escape(t[1..]) + r)
  {
    EscapeCons(t);
    Associate(EscapeChar(t[0]), Escape(t[1..]), r);
  }

  lemma EscapeCons(t: string)
    requires t != []
    ensures Escape(t) == EscapeChar(t[0]) + Escape(t[1..])
  {
  }

  lemma Associate(x: string, y: string, r: string)
    ensures (x + y) + r == x + (y + r)
  {
  }

  lemma LitsConsAppend(t: string, v: seq<Atom>)
    requires t != []
    ensures Lits(t) + v == [Exactly(t[0])] + (Lits(t[1..]) + v)
  {
    LitsCons(t);
  }

  /** `.+` reads as one `AnyPlus`. */
  lemma ParseAnyPlus(r: string)
    ensures Parse(".+" + r) == Prepend(AnyPlus, Parse(r))
  {
    var re := ".+" + r;
    assert re[0] == '.' && re[1] == '+' && re[2..] == r;
  }

  /** Literal atoms match a string exactly when it starts with their text
      and the rest matches what follows them. */
  lemma {:induction false} LitsMatch(t: string, rest: seq<Atom>, s: string)
    ensures AtomsMatch(Lits(t) + rest, s) <==> StartsWith(s, t) && AtomsMatch(rest, s[|t|..])
  {
    if t == [] {
      assert Lits(t) + rest == rest;
      assert s[0..] == s;
    } else {
      var atoms := Lits(t) + rest;
      LitsCons(t);
      assert atoms[0] == Exactly(t[0]);
      assert atoms[1..] == Lits(t[1..]) + rest;
      if s != [] && |t| <= |s| {
        LitsMatch(t[1..], rest, s[1..]);
        assert s[1..][|t| - 1..] == s[|t|..];
        StartsWithCons(s, t);
      } else if s != [] {
        LitsMatch(t[1..], rest, s[1..]);
      }
    }
  }

  lemma LitsMatchWhole(t: string, s: string)
    ensures AtomsMatch(Lits(t), s) <==> s == t
  {
    LitsMatch(t, [], s);
    assert Lits(t) + [] == Lits(t);
    if StartsWith(s, t) && s[|t|..] == [] {
      assert s == s[..|t|];
    }
  }

  /** `.+` followed by a literal suffix matches exactly the strings longer
      than the suffix that end with it and hold no line terminator before it. */
  lemma AnyPlusThenLits(b: string, x: string)
    ensures AtomsMatch([AnyPlus] + Lits(b), x) <==>
              |b| < |x| && x[|x| - |b|..] == b && NoLineTerminator(x[..|x| - |b|])
  {
    var atoms := [AnyPlus] + Lits(b);
    assert atoms[0] == AnyPlus && atoms[1..] == Lits(b);
    forall k | 1 <= k <= |x| ensures AtomsMatch(Lits(b), x[k..]) <==> x[k..] == b {
      LitsMatchWhole(b, x[k..]);
    }
    if |b| < |x| && x[|x| - |b|..] == b && NoLineTerminator(x[..|x| - |b|]) {
      var k := |x| - |b|;
      assert 1 <= k <= |x| && NoLineTerminator(x[..k]) && AtomsMatch(Lits(b), x[k..]);
    }
  }

  /** A `*`-free glob is escaped and then left alone: no `\*` to rewrite. */
  lemma LiteralPrepared(glob: string)
    requires '*' !in glob
    ensures PrepareRegex(glob) == Escape(glob)
  {
    StarInEscape(glob);
    var e := Escape(glob);
    forall j: nat ensures !OccursAt(e, "\\*", j) {
      if j + 2 <= |e| {
        assert e[j..j + 2][1] == e[j + 1];
        assert e[j + 1] in e;
      }
    }
    ReplaceFirstAbsent(e, "\\*", ".+");
  }

  /** Escaping keeps a glob's pieces apart: `a + "*" + b` escapes to
      `Escape(a) + "\*" + Escape(b)`. */
  lemma EscapeAroundStar(a: string, b: string)
    ensures Escape(a + "*" + b) == Escape(a) + "\\*" + Escape(b)
  {
    EscapeAppend(a + "*", b);
    EscapeAppend(a, "*");
    assert Escape("*") == EscapeChar('*') + Escape([]);
  }

  /** The first `\*` of `x + "\*" + y` is right after `x` when `x` has no `*`. */
  lemma FirstEscapedStar(x: string, y: string)
    requires '*' !in x
    ensures ReplaceFirst(x + "\\*" + y, "\\*", ".+") == x + ".+" + y
  {
    var e := x + "\\*" + y;
    var n := |x|;
    assert e[n..n + 2] == "\\*";
    forall j: nat | j < n ensures !OccursAt(e, "\\*", j) {
      assert e[j..j + 2][1] == e[j + 1];
      if j + 1 < n {
        assert e[j + 1] == x[j + 1];
        assert x[j + 1] in x;
      } else {
        assert e[j + 1] == '\\';
      }
    }
    assert e[..n] == x;
    assert e[n + 2..] == y;
    ReplaceFirstAt(e, "\\*", ".+", n);
  }

  /** With a `*` in the glob, the first `\*` of the escaped text is the one
      that came from that first `*`. */
  lemma WildPrepared(a: string, b: string)
    requires '*' !in a
    ensures PrepareRegex(a + "*" + b) == Escape(a) + ".+" + Escape(b)
  {
    EscapeAroundStar(a, b);
    StarInEscape(a);
    FirstEscapedStar(Escape(a), Escape(b));
  }

  /** The atoms a wildcard glob stands for. */
  function WildAtoms(a: string, b: string): seq<Atom> {
    Lits(a) + ([AnyPlus] + Lits(b))
  }

  lemma ParseWildText(a: string, b: string)
    ensures Parse(Escape(a) + ".+" + Escape(b)) == Some(WildAtoms(a, b))
  {
    assert Parse("") == Some([]);
    ParseEscape(b, "");
    assert Escape(b) + "" == Escape(b);
    assert Lits(b) + [] == Lits(b);
    ParseAnyPlus(Escape(b));
    ParseEscape(a, ".+" + Escape(b));
    assert Escape(a) + ".+" + Escape(b) == Escape(a) + (".+" + Escape(b));
  }

  /** The atoms of a prepared wildcard glob. */
  lemma ParseWild(a: string, b: string)
    requires '*' !in a
    ensures Parse(PrepareRegex(a + "*" + b)) == Some(WildAtoms(a, b))
  {
    WildPrepared(a, b);
    ParseWildText(a, b);
  }

  /** The atoms of a wildcard glob match a string exactly as the direct
      reading does. */
  lemma WildAtomsMatch(a: string, b: string, s: string)
    ensures AtomsMatch(WildAtoms(a, b), s) <==> Matches(Wild(a, b), s)
  {
    LitsMatch(a, [AnyPlus] + Lits(b), s);
    if StartsWith(s, a) {
      var x := s[|a|..];
      AnyPlusThenLits(b, x);
      if |b| <= |x| {
        assert x[|x| - |b|..] == s[|s| - |b|..];
      }
      if |b| < |x| {
        assert x[..|x| - |b|] == s[|a|..|s| - |b|];
      }
    }
  }

  /** The prepared pattern of a wildcard glob tests a string exactly as the
      direct reading matches it. */
  lemma WildMeaning(a: string, b: string, s: string)
    requires '*' !in a
    ensures Parse(PrepareRegex(a + "*" + b)).Some?
    ensures RegexTest(PrepareRegex(a + "*" + b), s) <==> Matches(Wild(a, b), s)
  {
    ParseWild(a, b);
    WildAtomsMatch(a, b, s);
  }

  /** The prepared pattern of a `*`-free glob tests for that exact string. */
  lemma LiteralMeaning(glob: string, s: string)
    requires '*' !in glob
    ensures Parse(PrepareRegex(glob)).Some?
    ensures RegexTest(PrepareRegex(glob), s) <==> s == glob
  {
    LiteralPrepared(glob);
    assert Parse("") == Some([]);
    ParseEscape(glob, "");
    assert Escape(glob) + "" == Escape(glob);
    assert Lits(glob) + [] == Lits(glob);
    LitsMatchWhole(glob, s);
  }

  /** Escaping, then rewriting the first `\*`, gives a pattern that tests a
      string exactly as the direct reading of the glob matches it: a glob
      without `*` matches only itself, and one with `*` matches its prefix,
      one or more characters other than line terminators, and its suffix. */
  lemma PrepareRegexMeaning(glob: string, s: string)
    ensures Parse(PrepareRegex(glob)).Some?
    ensures RegexTest(PrepareRegex(glob), s) <==> Matches(Compile(glob), s)
  {
    CompileSplits(glob);
    match Compile(glob)
    case Literal(_) =>
      LiteralMeaning(glob, s);
    case Wild(a, b) =>
      WildMeaning(a, b, s);
  }

  // ---------------------------------------------------------------------
  // toRegexArray and isWhitelisted
  // ---------------------------------------------------------------------

  /** `replace(/,\ /g, ',')`: every comma followed by one space loses the
      space; matches do not overlap, so of `,  ` one space remains. */
  function CollapseCommaSpace(s: string): string {
    if s == [] then ""
    else if |s| >= 2 && s[0] == ',' && s[1] == ' ' then "," + CollapseCommaSpace(s[2..])
    else [s[0]] + CollapseCommaSpace(s[1..])
  }

  function DropSpace(p: string): string {
    if p != [] && p[0] == ' ' then p[1..] else p
  }

  function DropSpaces(ps: seq<string>): (r: seq<string>)
    ensures |r| == |ps|
  {
    seq(|ps|, i requires 0 <= i < |ps| => DropSpace(ps[i]))
  }

  /** The first piece of a split starts with the first character when that
      is not a comma. */
  lemma SplitCommaHead(s: string)
    requires s != [] && s[0] != ','
    ensures SplitComma(s)[0] != [] && SplitComma(s)[0][0] == s[0]
  {
  }

  /** Collapsing `, ` before splitting is the same as splitting and then
      dropping one leading space from every piece but the first. */
  lemma {:induction false} CollapseThenSplit(s: string)
    ensures SplitsCollapsed(s)
    decreases |s|
  {
    if s == [] {
      assert DropSpaces([]) == [];
    } else if |s| >= 2 && s[0] == ',' && s[1] == ' ' {
      CollapseThenSplit(s[2..]);
      CollapseCommaSpaceStep(s);
    } else if s[0] == ',' {
      CollapseThenSplit(s[1..]);
      CollapseCommaStep(s);
    } else {
      CollapseThenSplit(s[1..]);
      CollapseCharStep(s);
    }
  }

  /** Reading a list back after `, ` is collapsed gives the same first
      piece, and every later piece loses one leading space. */
  ghost predicate SplitsCollapsed(s: string) {
    SplitComma(CollapseCommaSpace(s)) == [SplitComma(s)[0]] + DropSpaces(SplitComma(s)[1..])
  }

  lemma CollapseCommaSpaceStep(s: string)
    requires |s| >= 2 && s[0] == ',' && s[1] == ' '
    requires SplitsCollapsed(s[2..])
    ensures SplitsCollapsed(s)
  {
    var t := s[2..];
    var p := SplitComma(t);
    var c := CollapseCommaSpace(t);
    assert CollapseCommaSpace(s) == [','] + c;
    SplitCommaCons(',', c);
    assert s[1..] == [' '] + t && s == [','] + s[1..];
    SplitCommaCons(' ', t);
    SplitCommaCons(',', s[1..]);
    DropSpacesCons([' '] + p[0], p[1..]);
    assert DropSpace([' '] + p[0]) == p[0];
  }

  /** Reading back a list that starts with a given character. */
  lemma SplitCommaCons(ch: char, t: string)
    ensures SplitComma([ch] + t) ==
              if ch == ',' then [""] + SplitComma(t)
              else [[ch] + SplitComma(t)[0]] + SplitComma(t)[1..]
  {
    assert ([ch] + t)[0] == ch && ([ch] + t)[1..] == t;
  }

  lemma DropSpacesCons(x: string, xs: seq<string>)
    ensures DropSpaces([x] + xs) == [DropSpace(x)] + DropSpaces(xs)
  {
  }

  lemma CollapseCommaStep(s: string)
    requires s != [] && s[0] == ',' && !(|s| >= 2 && s[1] == ' ')
    requires SplitsCollapsed(s[1..])
    ensures SplitsCollapsed(s)
  {
    var t := s[1..];
    var p := SplitComma(t);
    assert ("," + CollapseCommaSpace(t))[1..] == CollapseCommaSpace(t);
    assert SplitComma(s) == [""] + p;
    if t != [] && t[0] != ',' {
      SplitCommaHead(t);
    }
    assert DropSpace(p[0]) == p[0];
    assert DropSpaces(p) == [p[0]] + DropSpaces(p[1..]);
  }

  lemma CollapseCharStep(s: string)
    requires s != [] && s[0] != ','
    requires SplitsCollapsed(s[1..])
    ensures SplitsCollapsed(s)
  {
    var t := s[1..];
    var p := SplitComma(t);
    var c := CollapseCommaSpace(t);
    assert ([s[0]] + c)[1..] == c;
    assert SplitComma(s) == [[s[0]] + p[0]] + p[1..];
  }

  /** The globs of a configured list: `(csv || '')`, `, ` collapsed, split
      at commas. */
  function Globs(csv: Option<string>): (globs: seq<string>)
    ensures |globs| >= 1
  {
    SplitComma(CollapseCommaSpace(csv.GetOr("")))
  }

  /** `toRegexArray(csv)`: one pattern per glob, in order. */
  function ToRegexArray(csv: Option<string>): (res: seq<string>)
    ensures |res| == |Globs(csv)|
  {
    var globs := Globs(csv);
    seq(|globs|, i requires 0 <= i < |globs| => PrepareRegex(globs[i]))
  }

  /** `hostMap.some(entry => entry.test(host))`. */
  function IsWhitelisted(host: string, list: seq<string>): (r: bool)
    ensures r <==> exists i :: 0 <= i < |list| && RegexTest(list[i], host)
  {
    if list == [] then false
    else RegexTest(list[0], host) || IsWhitelisted(host, list[1..])
  }

  /** A host is whitelisted exactly when one of the configured globs,
      read directly, matches it. */
  lemma WhitelistedIffGlob(csv: Option<string>, host: string)
    ensures IsWhitelisted(host, ToRegexArray(csv)) <==>
              exists i :: 0 <= i < |Globs(csv)| && Matches(Compile(Globs(csv)[i]), host)
  {
    var globs := Globs(csv);
    var list := ToRegexArray(csv);
    forall i | 0 <= i < |globs| ensures RegexTest(list[i], host) <==> Matches(Compile(globs[i]), host) {
      PrepareRegexMeaning(globs[i], host);
    }
  }

  /** The configured value is split at every comma, with one space after a
      comma ignored: `"a.com, b.com"` lists `a.com` and `b.com`. */
  lemma GlobsOfList(csv: string)
    ensures Globs(Some(csv)) == [SplitComma(csv)[0]] + DropSpaces(SplitComma(csv)[1..])
    ensures |Globs(Some(csv))| == CountComma(csv) + 1
  {
    CollapseThenSplit(csv);
    SplitCommaCount(csv);
  }

  /** An unset or empty whitelist is the single empty glob: it accepts the
      empty host name and nothing else. */
  lemma UnconfiguredAcceptsOnlyEmpty(csv: Option<string>, host: string)
    requires csv == None || csv == Some("")
    ensures Globs(csv) == [""]
    ensures IsWhitelisted(host, ToRegexArray(csv)) <==> host == ""
  {
    assert csv.GetOr("") == "";
    assert Globs(csv) == [""];
    WhitelistedIffGlob(csv, host);
    CompileSplits("");
  }

  lemma {:induction false} CollapseNoComma(s: string)
    requires ',' !in s
    ensures CollapseCommaSpace(s) == s
  {
    if s != [] {
      assert s[0] in s;
      assert forall c :: c in s[1..] ==> c in s;
      CollapseNoComma(s[1..]);
      assert s == [s[0]] + s[1..];
    }
  }

  /** A value without commas configures exactly one glob. */
  lemma SingleGlob(glob: string)
    requires ',' !in glob
    ensures Globs(Some(glob)) == [glob]
  {
    CollapseNoComma(glob);
    SplitCommaFree(glob);
  }

  /** A whitelist entry written as a full URL never accepts the host name
      of that URL: the gateway tests host names only, so the entry
      `https://` + host + `/` + star does not admit host. */
  lemma UrlPatternRejectsHost(scheme: string, host: string)
    requires ',' !in scheme + "://" + host && '*' !in scheme + "://" + host
    ensures !IsWhitelisted(host, ToRegexArray(Some(scheme + "://" + host + "/*")))
  {
    var prefix := scheme + "://" + host + "/";
    var glob := prefix + "*" + "";
    assert scheme + "://" + host + "/*" == glob;
    assert ',' !in glob by {
      assert forall c :: c in glob ==> c in scheme + "://" + host || c in "/*";
    }
    assert '*' !in prefix by {
      assert forall c :: c in prefix ==> c in scheme + "://" + host || c == '/';
    }
    SingleGlob(glob);
    CompileSplits(glob);
    CompileOfWild(prefix, "");
    WhitelistedIffGlob(Some(glob), host);
  }

  /** Splitting a glob written as prefix, star, suffix recovers the two. */
  lemma CompileOfWild(a: string, b: string)
    requires '*' !in a
    ensures Compile(a + "*" + b) == Wild(a, b)
  {
    var g := a + "*" + b;
    assert g[|a|..|a| + 1] == "*";
    forall j: nat | j < |a| ensures !OccursAt(g, "*", j) {
      assert g[j..j + 1] == [a[j]];
      assert a[j] in a;
    }
    IndexOfFirst(g, "*", 0, |a|);
    assert g[..|a|] == a;
    assert g[|a| + 1..] == b;
  }

  /** The entry star + `.` + domain accepts every subdomain of the domain
      and not the domain itself. */
  lemma SubdomainWildcard(domain: string, sub: string)
    requires ',' !in domain
    requires |sub| >= 1 && NoLineTerminator(sub)
    ensures IsWhitelisted(sub + "." + domain, ToRegexArray(Some("*." + domain)))
    ensures !IsWhitelisted(domain, ToRegexArray(Some("*." + domain)))
  {
    var b := "." + domain;
    var glob := "*." + domain;
    assert glob == "" + "*" + b;
    assert ',' !in glob by {
      assert forall c :: c in glob ==> c in domain || c in "*.";
    }
    CompileOfWild("", b);
    assert sub + "." + domain == "" + sub + b;
    MatchesWild("", b, sub + "." + domain);
    OneGlobWhitelist(glob, sub + "." + domain);
    OneGlobWhitelist(glob, domain);
  }

  /** A list without commas holds one glob, and a host is accepted exactly
      when that glob matches it. */
  lemma OneGlobWhitelist(glob: string, host: string)
    requires ',' !in glob
    ensures IsWhitelisted(host, ToRegexArray(Some(glob))) <==> Matches(Compile(glob), host)
  {
    SingleGlob(glob);
    WhitelistedIffGlob(Some(glob), host);
  }
}
