/** Secret templating (src/utils/tokenization.js).

    `FilterByPrefix` builds the replacement table from the environment;
    `MustachReplace` rewrites `{{ns.NAME}}` tokens inside one header value.
    The regular expression `/{{((.*?)\.(.*?))}}/g` of the source is modelled
    by an explicit scanner (`MatchHead`, `Lex`) that is proved to pick the
    same match the lazy quantifiers pick (`MatchHeadIsLazyMatch`). */
module Tokenization {
  import opened Wrappers
  import opened Strings

  // ---------------------------------------------------------------------
  // The replacement table
  // ---------------------------------------------------------------------

  /** `key` starts with at least one of `prefixes`. */
  predicate StartsWithAny(key: string, prefixes: seq<string>) {
    exists i :: 0 <= i < |prefixes| && StartsWith(key, prefixes[i])
  }

  /** For each prefix in turn, drop it from the front of the key if the key
      (as stripped so far) starts with it. The result is a suffix of `key`. */
  function StripPrefixes(key: string, prefixes: seq<string>): (r: string)
    ensures |r| <= |key| && key[|key| - |r|..] == r
    decreases |prefixes|
  {
    if prefixes == [] then key
    else
      var next := if StartsWith(key, prefixes[0]) then key[|prefixes[0]|..] else key;
      var r := StripPrefixes(next, prefixes[1..]);
      assert key[|key| - |next|..] == next;
      assert next[|next| - |r|..] == r;
      assert key[|key| - |r|..] == key[|key| - |next|..][|next| - |r|..];
      r
  }

  /** Entry `i` of the environment is kept, under the stored key `k`. */
  predicate KeptAs(env: seq<(string, string)>, prefixes: seq<string>, i: int, k: string)
    requires 0 <= i < |env|
  {
    StartsWithAny(env[i].0, prefixes) && StripPrefixes(env[i].0, prefixes) == k
  }

  /** `filterByPrefix(env, ...prefixes)`: keep the entries whose key starts
      with some prefix, store each under its stripped key; when two kept
      keys strip to the same name the later entry wins. */
  function FilterByPrefix(env: seq<(string, string)>, prefixes: seq<string>): map<string, string> {
    if env == [] then map[]
    else
      var rest := FilterByPrefix(env[..|env| - 1], prefixes);
      var (key, value) := env[|env| - 1];
      if StartsWithAny(key, prefixes) then rest[StripPrefixes(key, prefixes) := value] else rest
  }

  /** The table has an entry `k` exactly when some environment key starts
      with a prefix and strips to `k`. */
  lemma {:induction false} FilterByPrefixKeys(env: seq<(string, string)>, prefixes: seq<string>, k: string)
    ensures k in FilterByPrefix(env, prefixes) <==> exists i :: 0 <= i < |env| && KeptAs(env, prefixes, i, k)
  {
    if env != [] {
      var n := |env| - 1;
      var init := env[..n];
      FilterByPrefixKeys(init, prefixes, k);
      assert forall i :: 0 <= i < n ==> init[i] == env[i];
      assert forall i :: 0 <= i < n ==> KeptAs(init, prefixes, i, k) == KeptAs(env, prefixes, i, k);
      if !KeptAs(env, prefixes, n, k) {
        assert k in FilterByPrefix(env, prefixes) <==> k in FilterByPrefix(init, prefixes);
      }
    }
  }

  /** The value stored under `k` is, unchanged, the value of the last
      environment entry kept as `k`. */
  lemma {:induction false} FilterByPrefixValues(env: seq<(string, string)>, prefixes: seq<string>, k: string)
    requires k in FilterByPrefix(env, prefixes)
    ensures exists i :: 0 <= i < |env| && KeptAs(env, prefixes, i, k) &&
              FilterByPrefix(env, prefixes)[k] == env[i].1 &&
              forall j :: i < j < |env| ==> !KeptAs(env, prefixes, j, k)
  {
    var n := |env| - 1;
    var init := env[..n];
    assert forall i :: 0 <= i < n ==> init[i] == env[i];
    assert forall i :: 0 <= i < n ==> KeptAs(init, prefixes, i, k) == KeptAs(env, prefixes, i, k);
    if !KeptAs(env, prefixes, n, k) {
      FilterByPrefixValues(init, prefixes, k);
    }
  }

  /** With one prefix, a key is kept when it starts with the prefix and is
      stored without it. */
  lemma OnePrefix(key: string, prefix: string)
    ensures StartsWithAny(key, [prefix]) <==> StartsWith(key, prefix)
    ensures StartsWith(key, prefix) ==> StripPrefixes(key, [prefix]) == key[|prefix|..]
  {
    if StartsWith(key, prefix) {
      assert StartsWith(key, [prefix][0]);
    }
  }

  /** With the single prefix the gateway configures, the table holds `k`
      exactly when the environment has the key `prefix + k`. */
  lemma SinglePrefixTable(env: seq<(string, string)>, prefix: string, k: string)
    ensures k in FilterByPrefix(env, [prefix]) <==> exists i :: 0 <= i < |env| && env[i].0 == prefix + k
  {
    FilterByPrefixKeys(env, [prefix], k);
    forall i | 0 <= i < |env| ensures KeptAs(env, [prefix], i, k) <==> env[i].0 == prefix + k {
      OnePrefixKey(env[i].0, prefix, k);
    }
  }

  lemma OnePrefixKey(key: string, prefix: string, k: string)
    ensures StartsWithAny(key, [prefix]) && StripPrefixes(key, [prefix]) == k <==> key == prefix + k
  {
    OnePrefix(key, prefix);
    if key == prefix + k {
      assert key[..|prefix|] == prefix;
      assert key[|prefix|..] == k;
    }
    if StartsWith(key, prefix) && key[|prefix|..] == k {
      assert key == key[..|prefix|] + key[|prefix|..];
    }
  }

  // ---------------------------------------------------------------------
  // One match of /{{((.*?)\.(.*?))}}/ anchored at the start of a string
  // ---------------------------------------------------------------------

  /** Position of the first `.` in `t`, provided no line terminator comes
      before it (what `(.*?)\.` can reach). */
  function FirstDot(t: string): (r: Option<nat>)
    ensures r.Some? ==> r.value < |t| && t[r.value] == '.'
  {
    if t == [] then None
    else if t[0] == '.' then Some(0)
    else if IsLineTerminator(t[0]) then None
    else
      match FirstDot(t[1..])
      case Some(d) => Some(d + 1)
      case None => None
  }

  /** The dot found is the first one, reachable without crossing a line
      end; when none is found, every dot lies beyond a line end. */
  lemma {:induction false} FirstDotSpec(t: string)
    ensures FirstDot(t).Some? ==> NoLineTerminator(t[..FirstDot(t).value])
    ensures FirstDot(t).Some? ==> forall j :: 0 <= j < FirstDot(t).value ==> t[j] != '.'
    ensures FirstDot(t).None? ==> forall d :: 0 <= d < |t| && t[d] == '.' ==> !NoLineTerminator(t[..d])
  {
    if t == [] || t[0] == '.' {
    } else if IsLineTerminator(t[0]) {
      assert forall d :: 0 < d < |t| ==> t[..d][0] == t[0];
    } else {
      FirstDotSpec(t[1..]);
      match FirstDot(t[1..])
      case Some(d) =>
        assert t[..d + 1] == [t[0]] + t[1..][..d];
        assert forall j :: 0 < j < d + 1 ==> t[j] == t[1..][j - 1];
      case None =>
        forall d | 0 < d < |t| && t[d] == '.' ensures !NoLineTerminator(t[..d]) {
          assert t[1..][d - 1] == '.';
          var j :| 0 <= j < d - 1 && IsLineTerminator(t[1..][..d - 1][j]);
          assert t[..d][j + 1] == t[1..][..d - 1][j];
        }
    }
  }

  /** Position of the first `}}` in `t`, provided no line terminator comes
      before it (what `(.*?)}}` can reach). */
  function FirstClose(t: string): (r: Option<nat>)
    ensures r.Some? ==> r.value + 2 <= |t| && t[r.value] == '}' && t[r.value + 1] == '}'
  {
    if |t| < 2 then None
    else if t[0] == '}' && t[1] == '}' then Some(0)
    else if IsLineTerminator(t[0]) then None
    else
      match FirstClose(t[1..])
      case Some(c) => Some(c + 1)
      case None => None
  }

  /** The `}}` found is the first one, reachable without crossing a line
      end; when none is found, every `}}` lies beyond a line end. */
  lemma {:induction false} FirstCloseSpec(t: string)
    ensures FirstClose(t).Some? ==> NoLineTerminator(t[..FirstClose(t).value])
    ensures FirstClose(t).Some? ==> forall j :: 0 <= j < FirstClose(t).value ==> !(t[j] == '}' && t[j + 1] == '}')
    ensures FirstClose(t).None? ==>
              forall c :: 0 <= c && c + 2 <= |t| && t[c] == '}' && t[c + 1] == '}' ==> !NoLineTerminator(t[..c])
  {
    if |t| < 2 || (t[0] == '}' && t[1] == '}') {
    } else if IsLineTerminator(t[0]) {
      assert forall c :: 0 < c < |t| ==> t[..c][0] == t[0];
    } else {
      FirstCloseSpec(t[1..]);
      match FirstClose(t[1..])
      case Some(c) =>
        assert t[..c + 1] == [t[0]] + t[1..][..c];
        assert forall j :: 0 < j < c + 1 ==> t[j] == t[1..][j - 1] && t[j + 1] == t[1..][j];
      case None =>
        forall c | 0 < c && c + 2 <= |t| && t[c] == '}' && t[c + 1] == '}' ensures !NoLineTerminator(t[..c]) {
          assert t[1..][c - 1] == '}' && t[1..][c] == '}';
          var j :| 0 <= j < c - 1 && IsLineTerminator(t[1..][..c - 1][j]);
          assert t[..c][j + 1] == t[1..][..c - 1][j];
        }
    }
  }

  /** `s[0..c+2]` could be matched with the namespace group `s[2..d]` and the
      name group `s[d+1..c]`. */
  ghost predicate IsCandidate(s: string, d: int, c: int) {
    && 2 <= d < c && c + 2 <= |s|
    && s[0] == '{' && s[1] == '{' && s[d] == '.' && s[c] == '}' && s[c + 1] == '}'
    && NoLineTerminator(s[2..d]) && NoLineTerminator(s[d + 1..c])
  }

  /** The candidate the lazy quantifiers choose: the shortest namespace
      first, then the shortest name. */
  ghost predicate IsLazyMatch(s: string, d: int, c: int) {
    IsCandidate(s, d, c) &&
    forall d', c' :: IsCandidate(s, d', c') ==> d < d' || (d == d' && c <= c')
  }

  /** The match of the token expression anchored at position 0 of `s`, as
      (position of the `.`, position of the closing `}}`). */
  function MatchHead(s: string): Option<(nat, nat)> {
    if |s| < 2 || s[0] != '{' || s[1] != '{' then None
    else
      match FirstDot(s[2..])
      case None => None
      case Some(d0) =>
        match FirstClose(s[d0 + 3..])
        case None => None
        case Some(c0) => Some((d0 + 2, d0 + 3 + c0))
  }

  /** A match found by the scanner spans `{{`, a dot, and `}}`. */
  lemma MatchHeadShape(s: string)
    requires MatchHead(s).Some?
    ensures var (d, c) := MatchHead(s).value;
      2 <= d < c && c + 2 <= |s| && s[..c + 2] == TagText(s[2..d], s[d + 1..c])
  {
    var (d, c) := MatchHead(s).value;
    assert s[2..][d - 2] == s[d];
    assert s[d + 1..][c - d - 1] == s[c] && s[d + 1..][c - d] == s[c + 1];
    assert s[..c + 2] == s[..2] + s[2..d] + [s[d]] + s[d + 1..c] + s[c..c + 2];
  }

  /** A candidate may always take an earlier reachable dot instead of its
      own: the text between the two dots holds no line terminator. */
  lemma EarlierDot(s: string, d: int, d': int, c': int)
    requires IsCandidate(s, d', c')
    requires 2 <= d <= d' && s[d] == '.'
    ensures IsCandidate(s, d, c')
  {
    var ns', name' := s[2..d'], s[d' + 1..c'];
    assert forall p :: 2 <= p < d' ==> s[p] == ns'[p - 2];
    assert forall p :: d' < p < c' ==> s[p] == name'[p - d' - 1];
    var w := s[d + 1..c'];
    forall j | 0 <= j < |w| ensures !IsLineTerminator(w[j]) {
      assert w[j] == s[d + 1 + j];
    }
    var v := s[2..d];
    forall j | 0 <= j < |v| ensures !IsLineTerminator(v[j]) {
      assert v[j] == s[2 + j];
    }
  }

  /** Every candidate's dot lies at or after the first reachable dot. */
  lemma CandidateReachesDot(s: string, d: int, c: int)
    requires IsCandidate(s, d, c)
    ensures FirstDot(s[2..]).Some? && FirstDot(s[2..]).value + 2 <= d
  {
    var t := s[2..];
    FirstDotSpec(t);
    assert t[d - 2] == '.';
    assert t[..d - 2] == s[2..d];
  }

  /** Every candidate's `}}` lies at or after the first `}}` reachable from
      its dot. */
  lemma CandidateReachesClose(s: string, d: int, c: int)
    requires IsCandidate(s, d, c)
    ensures FirstClose(s[d + 1..]).Some? && d + 1 + FirstClose(s[d + 1..]).value <= c
  {
    var u := s[d + 1..];
    FirstCloseSpec(u);
    assert u[c - d - 1] == '}' && u[c - d] == '}';
    assert u[..c - d - 1] == s[d + 1..c];
  }

  /** The scanner finds a match exactly when the regular expression has one
      here, and then finds the one the lazy quantifiers pick. */
  lemma MatchHeadIsLazyMatch(s: string)
    ensures MatchHead(s).Some? ==> IsLazyMatch(s, MatchHead(s).value.0, MatchHead(s).value.1)
    ensures MatchHead(s).None? ==> forall d, c :: !IsCandidate(s, d, c)
  {
    forall d', c' | IsCandidate(s, d', c')
      ensures MatchHead(s).Some?
      ensures MatchHead(s).value.0 < d' || (MatchHead(s).value.0 == d' && MatchHead(s).value.1 <= c')
    {
      MatchHeadPrecedes(s, d', c');
    }
    if MatchHead(s).Some? {
      MatchHeadIsCandidate(s);
    }
  }

  /** Any candidate lies at or after the scanner's match. */
  lemma MatchHeadPrecedes(s: string, d': int, c': int)
    requires IsCandidate(s, d', c')
    ensures MatchHead(s).Some?
    ensures MatchHead(s).value.0 < d' || (MatchHead(s).value.0 == d' && MatchHead(s).value.1 <= c')
  {
    CandidateReachesDot(s, d', c');
    var d := FirstDot(s[2..]).value + 2;
    EarlierDot(s, d, d', c');
    CandidateReachesClose(s, d, c');
  }

  /** The scanner's match is a candidate. */
  lemma MatchHeadIsCandidate(s: string)
    requires MatchHead(s).Some?
    ensures IsCandidate(s, MatchHead(s).value.0, MatchHead(s).value.1)
  {
    var (d, c) := MatchHead(s).value;
    FirstDotSpec(s[2..]);
    FirstCloseSpec(s[d + 1..]);
    assert s[2..d] == s[2..][..d - 2];
    assert s[d + 1..c] == s[d + 1..][..c - d - 1];
  }

  // ---------------------------------------------------------------------
  // The global replacement
  // ---------------------------------------------------------------------

  /** A piece of the scanned input: a character outside every token, or a
      token with its namespace and name groups. */
  datatype Piece = Char(c: char) | Tag(ns: string, name: string)

  /** The text of a token as written. */
  function TagText(ns: string, name: string): string {
    "{{" + ns + "." + name + "}}"
  }

  /** The piece at the front of a non-empty string, with its length: the
      token matched there, or else the first character. */
  function Head(s: string): (h: (Piece, nat))
    requires s != []
    ensures 1 <= h.1 <= |s|
  {
    var m := MatchHead(s);
    if m.Some? then (Tag(s[2..m.value.0], s[m.value.0 + 1..m.value.1]), m.value.1 + 2)
    else (Char(s[0]), 1)
  }

  /** The global scan: take the piece at the current position and resume
      after it, so a match never overlaps the previous one and a position
      where no match starts gives up one character. */
  function Lex(s: string): seq<Piece>
    decreases |s|
  {
    if s == [] then [] else [Head(s).0] + Lex(s[Head(s).1..])
  }

  /** A piece written back out as text. */
  function PieceText(p: Piece): string {
    match p
    case Char(c) => [c]
    case Tag(ns, name) => TagText(ns, name)
  }

  function Unlex(ps: seq<Piece>): string {
    if ps == [] then "" else PieceText(ps[0]) + Unlex(ps[1..])
  }

  /** The scan loses and invents nothing: characters outside the tokens are
      the input's own characters, in order. */
  lemma {:induction false} LexRoundTrip(s: string)
    ensures Unlex(Lex(s)) == s
    decreases |s|
  {
    if s != [] {
      var h := Head(s);
      var rest := s[h.1..];
      LexRoundTrip(rest);
      calc {
        Unlex(Lex(s));
        Unlex([h.0] + Lex(rest));
        { UnlexCons(h.0, Lex(rest)); }
        PieceText(h.0) + Unlex(Lex(rest));
        PieceText(h.0) + rest;
        { HeadText(s); }
        s[..h.1] + rest;
        s;
      }
    }
  }

  /** The piece at the front is written exactly as the text it spans. */
  lemma HeadText(s: string)
    requires s != []
    ensures PieceText(Head(s).0) == s[..Head(s).1]
  {
    if MatchHead(s).Some? {
      MatchHeadShape(s);
    }
  }

  lemma UnlexCons(p: Piece, ps: seq<Piece>)
    ensures Unlex([p] + ps) == PieceText(p) + Unlex(ps)
  {
    assert ([p] + ps)[0] == p && ([p] + ps)[1..] == ps;
  }

  /** The value a token is replaced with: the table entry for the upper-cased
      name when the namespace is accepted, the name is not `undefined` and
      the entry is truthy (a non-empty string); otherwise the token itself. */
  function Resolve(ns: string, name: string, table: map<string, string>, accepted: seq<string>): string {
    if ns in accepted && name != "undefined" && Upper(name) in table && table[Upper(name)] != "" then
      table[Upper(name)]
    else
      TagText(ns, name)
  }

  /** The output for one piece: a character is copied, a token resolved. */
  function RenderPiece(p: Piece, table: map<string, string>, accepted: seq<string>): string {
    match p
    case Char(c) => [c]
    case Tag(ns, name) => Resolve(ns, name, table, accepted)
  }

  function Render(ps: seq<Piece>, table: map<string, string>, accepted: seq<string>): string {
    if ps == [] then "" else RenderPiece(ps[0], table, accepted) + Render(ps[1..], table, accepted)
  }

  /** `mustachReplace(input, replacements, ...accepted)`. */
  function MustachReplace(s: string, table: map<string, string>, accepted: seq<string>): string {
    Render(Lex(s), table, accepted)
  }

  lemma {:induction false} RenderAppend(a: seq<Piece>, b: seq<Piece>, table: map<string, string>, accepted: seq<string>)
    ensures Render(a + b, table, accepted) == Render(a, table, accepted) + Render(b, table, accepted)
  {
    if a != [] {
      assert (a + b)[0] == a[0];
      assert (a + b)[1..] == a[1..] + b;
      RenderAppend(a[1..], b, table, accepted);
    } else {
      assert a + b == b;
    }
  }

  /** The pieces of a text containing no `{`: one character each. */
  function Chars(t: string): (ps: seq<Piece>)
    ensures |ps| == |t|
  {
    if t == [] then [] else [Char(t[0])] + Chars(t[1..])
  }

  /** A string not starting with `{` starts with a plain character. */
  lemma LexNoBrace(s: string)
    requires s != [] && s[0] != '{'
    ensures Lex(s) == [Char(s[0])] + Lex(s[1..])
  {
    assert MatchHead(s).None?;
    assert Head(s) == (Char(s[0]), 1);
  }

  /** Text without `{` cannot start a token, so it passes through and the
      scan of what follows is unaffected. */
  lemma {:induction false} LexPlainText(t: string, u: string)
    requires '{' !in t
    ensures Lex(t + u) == Chars(t) + Lex(u)
  {
    if t == [] {
      assert t + u == u;
    } else {
      var s := t + u;
      assert s[0] == t[0] && s[1..] == t[1..] + u;
      assert t == [t[0]] + t[1..];
      LexNoBrace(s);
      LexPlainText(t[1..], u);
      var a, b := Chars(t[1..]), Lex(u);
      assert [Char(t[0])] + (a + b) == ([Char(t[0])] + a) + b;
    }
  }

  lemma {:induction false} RenderChars(t: string, table: map<string, string>, accepted: seq<string>)
    ensures Render(Chars(t), table, accepted) == t
  {
    if t != [] {
      RenderChars(t[1..], table, accepted);
      assert t == [t[0]] + t[1..];
    }
  }

  /** Text without `{` is copied to the output unchanged, and the text after
      it is substituted as if on its own. */
  lemma PlainTextPassesThrough(t: string, u: string, table: map<string, string>, accepted: seq<string>)
    requires '{' !in t
    ensures MustachReplace(t + u, table, accepted) == t + MustachReplace(u, table, accepted)
  {
    LexPlainText(t, u);
    RenderAppend(Chars(t), Lex(u), table, accepted);
    RenderChars(t, table, accepted);
  }

  /** The scanner recognises a well-formed token at the front as exactly
      that token: the namespace has no `.`, the name has no `}`, and neither
      crosses a line end. */
  lemma MatchHeadOfTag(ns: string, name: string, u: string)
    requires '.' !in ns && NoLineTerminator(ns)
    requires '}' !in name && NoLineTerminator(name)
    ensures MatchHead(TagText(ns, name) + u) == Some((|ns| + 2, |ns| + 3 + |name|))
  {
    var s := TagText(ns, name) + u;
    var d := |ns| + 2;
    var c := d + 1 + |name|;
    assert s[2..d] == ns && s[d] == '.';
    assert s[d + 1..c] == name && s[c] == '}' && s[c + 1] == '}';
    assert IsCandidate(s, d, c);
    forall j | 2 <= j < d ensures s[j] != '.' {
      assert s[j] == ns[j - 2];
    }
    forall j | d < j < c ensures s[j] != '}' {
      assert s[j] == name[j - d - 1];
    }
    MatchHeadIsLazyMatch(s);
  }

  /** A token whose namespace has no `.` and whose name has no `}` (neither
      crossing a line end) is replaced by the table entry for the upper-cased
      name only when the namespace is accepted, the name is not `undefined`
      and the entry is a non-empty string, and is otherwise kept byte for
      byte. The inserted value is not scanned again: the output goes on with
      the substitution of the text after the token. */
  lemma TokenResolves(ns: string, name: string, u: string, table: map<string, string>, accepted: seq<string>)
    requires '.' !in ns && NoLineTerminator(ns)
    requires '}' !in name && NoLineTerminator(name)
    ensures Lex(TagText(ns, name) + u) == [Tag(ns, name)] + Lex(u)
    ensures MustachReplace(TagText(ns, name) + u, table, accepted) ==
              (if ns in accepted && name != "undefined" && Upper(name) in table && table[Upper(name)] != ""
               then table[Upper(name)] else TagText(ns, name))
              + MustachReplace(u, table, accepted)
  {
    var s := TagText(ns, name) + u;
    var d := |ns| + 2;
    var c := d + 1 + |name|;
    MatchHeadOfTag(ns, name, u);
    HeadAtTag(s, d, c);
    TagTextSlices(ns, name, u);
    assert Head(s) == (Tag(ns, name), c + 2);
    assert Lex(s) == [Tag(ns, name)] + Lex(u);
    MustachReplaceStep(s, table, accepted);
  }

  lemma TagTextSlices(ns: string, name: string, u: string)
    ensures var s := TagText(ns, name) + u;
      && |s| == |ns| + |name| + 5 + |u|
      && s[2..|ns| + 2] == ns && s[|ns| + 3..|ns| + 3 + |name|] == name && s[|ns| + |name| + 5..] == u
  {
  }

  /** When every token the scan finds renders as itself, nothing changes. */
  lemma {:induction false} RenderUnresolved(ps: seq<Piece>, table: map<string, string>, accepted: seq<string>)
    requires forall i :: 0 <= i < |ps| && ps[i].Tag? ==>
               Resolve(ps[i].ns, ps[i].name, table, accepted) == TagText(ps[i].ns, ps[i].name)
    ensures Render(ps, table, accepted) == Unlex(ps)
  {
    if ps != [] {
      assert forall i :: 0 <= i < |ps[1..]| ==> ps[1..][i] == ps[i + 1];
      RenderUnresolved(ps[1..], table, accepted);
    }
  }

  /** An empty table changes nothing. */
  lemma EmptyTableIsIdentity(s: string, accepted: seq<string>)
    ensures MustachReplace(s, map[], accepted) == s
  {
    RenderUnresolved(Lex(s), map[], accepted);
    LexRoundTrip(s);
  }

  /** Without an accepted namespace nothing changes. */
  lemma NoNamespaceIsIdentity(s: string, table: map<string, string>)
    ensures MustachReplace(s, table, []) == s
  {
    RenderUnresolved(Lex(s), table, []);
    LexRoundTrip(s);
  }

  /** No position of `s` starts a `{{….…}}` match. */
  ghost predicate NoToken(s: string) {
    forall i, d, c :: 0 <= i <= |s| ==> !IsCandidate(s[i..], d, c)
  }

  /** Text containing no token is returned unchanged, whatever the table. */
  lemma {:induction false} NoTokenIsIdentity(s: string, table: map<string, string>, accepted: seq<string>)
    requires NoToken(s)
    ensures Lex(s) == Chars(s)
    ensures MustachReplace(s, table, accepted) == s
    decreases |s|
  {
    if s != [] {
      assert s[0..] == s;
      MatchHeadIsLazyMatch(s);
      assert MatchHead(s).None?;
      forall i, d, c | 0 <= i <= |s[1..]| ensures !IsCandidate(s[1..][i..], d, c) {
        assert s[1..][i..] == s[i + 1..];
      }
      NoTokenIsIdentity(s[1..], table, accepted);
    }
    RenderChars(s, table, accepted);
  }

  // ---------------------------------------------------------------------
  // The scanner as a loop
  // ---------------------------------------------------------------------

  lemma RenderCons(p: Piece, ps: seq<Piece>, table: map<string, string>, accepted: seq<string>)
    ensures Render([p] + ps, table, accepted) == RenderPiece(p, table, accepted) + Render(ps, table, accepted)
  {
    assert ([p] + ps)[0] == p && ([p] + ps)[1..] == ps;
  }

  /** One step of the scan: the output for the piece at the front, then the
      output for the text after it. */
  lemma MustachReplaceStep(s: string, table: map<string, string>, accepted: seq<string>)
    requires s != []
    ensures MustachReplace(s, table, accepted) ==
              RenderPiece(Head(s).0, table, accepted) + MustachReplace(s[Head(s).1..], table, accepted)
  {
    assert Lex(s) == [Head(s).0] + Lex(s[Head(s).1..]);
    RenderCons(Head(s).0, Lex(s[Head(s).1..]), table, accepted);
  }

  /** At a token found by the scanner, the piece is that token and the scan
      resumes after its `}}`. */
  lemma HeadAtTag(s: string, d: nat, c: nat)
    requires MatchHead(s) == Some((d, c))
    ensures 2 <= d < c && c + 2 <= |s| && Head(s) == (Tag(s[2..d], s[d + 1..c]), c + 2)
  {
    MatchHeadShape(s);
  }

  /** One step of the scan at the front of `rest`: the output it emits and
      the text left to scan. */
  function ScanStep(rest: string, table: map<string, string>, accepted: seq<string>): (r: (string, string))
    requires rest != []
    ensures |r.1| < |rest|
    ensures r.0 + MustachReplace(r.1, table, accepted) == MustachReplace(rest, table, accepted)
  {
    MustachReplaceStep(rest, table, accepted);
    (RenderPiece(Head(rest).0, table, accepted), rest[Head(rest).1..])
  }

  /** One left-to-right pass over `s` building the output; the same result
      as `MustachReplace`. `rest` is the part not yet scanned. */
  method Substitute(s: string, table: map<string, string>, accepted: seq<string>) returns (out: string)
    ensures out == MustachReplace(s, table, accepted)
  {
    out := "";
    var rest := s;
    while rest != []
      invariant out + MustachReplace(rest, table, accepted) == MustachReplace(s, table, accepted)
      decreases |rest|
    {
      var step := ScanStep(rest, table, accepted);
      assert (out + step.0) + MustachReplace(step.1, table, accepted) == out + MustachReplace(rest, table, accepted);
      out := out + step.0;
      rest := step.1;
    }
  }

  // ---------------------------------------------------------------------
  // Worked cases
  // ---------------------------------------------------------------------

  /** A value made of plain text and one well-formed token becomes the text
      followed by that token's resolution. */
  lemma TextThenToken(t: string, ns: string, name: string, table: map<string, string>, accepted: seq<string>)
    requires '{' !in t
    requires '.' !in ns && NoLineTerminator(ns)
    requires '}' !in name && NoLineTerminator(name)
    ensures MustachReplace(t + TagText(ns, name), table, accepted) == t + Resolve(ns, name, table, accepted)
  {
    TokenResolves(ns, name, "", table, accepted);
    assert TagText(ns, name) + "" == TagText(ns, name);
    assert Lex("") == [];
    PlainTextPassesThrough(t, TagText(ns, name), table, accepted);
  }

  /** A bearer token stored as `PROXY_REPLACE_TOKEN` is spliced into an
      `Authorization` value: `Bearer {{setting.TOKEN}}` becomes `Bearer abc123`. */
  lemma BearerTokenIsSubstituted()
    ensures MustachReplace("Bearer " + TagText("setting", "TOKEN"), map["TOKEN" := "abc123"], ["setting"]) == "Bearer abc123"
  {
    assert Upper("TOKEN") == "TOKEN";
    TextThenToken("Bearer ", "setting", "TOKEN", map["TOKEN" := "abc123"], ["setting"]);
  }

  /** A token in a namespace that is not accepted is kept verbatim. */
  lemma ForeignNamespaceIsKept()
    ensures MustachReplace("{{other.TOKEN}}", map["TOKEN" := "abc123"], ["setting"]) == "{{other.TOKEN}}"
  {
    assert "{{other.TOKEN}}" == TagText("other", "TOKEN") + "";
    TokenResolves("other", "TOKEN", "", map["TOKEN" := "abc123"], ["setting"]);
    assert Lex("") == [];
  }

  /** A name is upper-cased before the lookup. */
  lemma NameIsUpperCased()
    ensures MustachReplace("{{setting.token}}", map["TOKEN" := "abc123"], ["setting"]) == "abc123"
  {
    assert Upper("token") == "TOKEN";
    assert "{{setting.token}}" == TagText("setting", "token") + "";
    TokenResolves("setting", "token", "", map["TOKEN" := "abc123"], ["setting"]);
    assert Lex("") == [];
  }

  /** The name `undefined` is never looked up, even when the table has an
      `UNDEFINED` entry. */
  lemma UndefinedIsNeverSubstituted(u: string, table: map<string, string>, accepted: seq<string>)
    ensures MustachReplace(TagText("setting", "undefined") + u, table, accepted) ==
              TagText("setting", "undefined") + MustachReplace(u, table, accepted)
  {
    TokenResolves("setting", "undefined", u, table, accepted);
  }

  /** An empty table entry is falsy, so the token stays. */
  lemma EmptyValueKeepsToken()
    ensures MustachReplace("{{setting.TOKEN}}", map["TOKEN" := ""], ["setting"]) == "{{setting.TOKEN}}"
  {
    assert Upper("TOKEN") == "TOKEN";
    assert "{{setting.TOKEN}}" == TagText("setting", "TOKEN") + "";
    TokenResolves("setting", "TOKEN", "", map["TOKEN" := ""], ["setting"]);
    assert Lex("") == [];
  }

  /** An inserted value is not scanned again, even when it looks like a
      token itself. */
  lemma ValuesAreNotRescanned()
    ensures MustachReplace("{{setting.A}}", map["A" := "{{setting.B}}", "B" := "x"], ["setting"]) == "{{setting.B}}"
  {
    assert Upper("A") == "A";
    assert "{{setting.A}}" == TagText("setting", "A") + "";
    TokenResolves("setting", "A", "", map["A" := "{{setting.B}}", "B" := "x"], ["setting"]);
    assert Lex("") == [];
  }

  /** The lazy namespace group may run across `}}{{`: in `{{a}}{{setting.X}}`
      the only match has namespace `a}}{{setting`, which is not accepted, so
      the text is unchanged. */
  lemma NamespaceRunsAcrossTokens()
    ensures MustachReplace("{{a}}{{setting.X}}", map["X" := "v"], ["setting"]) == "{{a}}{{setting.X}}"
  {
    assert "{{a}}{{setting.X}}" == TagText("a}}{{setting", "X") + "";
    TokenResolves("a}}{{setting", "X", "", map["X" := "v"], ["setting"]);
    assert Lex("") == [];
  }
}
