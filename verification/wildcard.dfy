/** Wildcard scope patterns. The source turns a pattern into a regular expression by
    escaping every `.` and then rewriting every `*` as `.*`, and tests the address
    against it anchored at both ends. This module models that text rewriting, the
    small part of JavaScript regex syntax the rewriting produces, and its matching,
    and proves the whole pipeline equal to a plain glob match. */
module Wildcard {
  import opened Results

  /** ECMAScript SyntaxCharacter: the characters a regular expression reserves. */
  predicate IsSyntaxChar(c: char) {
    c in "^$\\.*+?()[]{}|"
  }

  /** JavaScript line terminators, the characters a regex `.` does not match. */
  predicate IsLineTerminator(c: char) {
    c == '\n' || c == '\r' || c == '\U{2028}' || c == '\U{2029}'
  }

  /** A pattern whose only regex-significant characters are `.` and `*`:
      digits, letters, `:` and the like, as scope patterns are written. */
  predicate IsPlainPattern(p: string) {
    forall i | 0 <= i < |p| :: p[i] == '.' || p[i] == '*' || !IsSyntaxChar(p[i])
  }

  /** `s.replace(/c/g, repl)` for a one-character regex `c`. */
  function ReplaceAll(s: string, c: char, repl: string): (r: string)
    ensures c !in repl ==> c !in r
    ensures forall d | d in r && d !in repl :: d in s
  {
    if |s| == 0 then ""
    else (if s[0] == c then repl else [s[0]]) + ReplaceAll(s[1..], c, repl)
  }

  /** What one pattern character contributes to the regex source. */
  function Translate(c: char): string {
    if c == '.' then "\\." else if c == '*' then ".*" else [c]
  }

  /** Reference meaning of the rewriting: every character translated on its own. */
  function TranslateAll(p: string): string {
    if |p| == 0 then "" else Translate(p[0]) + TranslateAll(p[1..])
  }

  /** The regex source built from a pattern, `.` replaced first and `*` second. The two
      global passes act character by character: the `.` that the second pass introduces
      is never escaped by the first. */
  function RegexSource(pattern: string): (r: string)
    ensures r == TranslateAll(pattern)
  {
    TwoPassesByChar(pattern);
    ReplaceAll(ReplaceAll(pattern, '.', "\\."), '*', ".*")
  }

  lemma {:induction false} ReplaceAllAppend(a: string, b: string, c: char, repl: string)
    ensures ReplaceAll(a + b, c, repl) == ReplaceAll(a, c, repl) + ReplaceAll(b, c, repl)
  {
    if |a| > 0 {
      assert (a + b)[1..] == a[1..] + b;
      ReplaceAllAppend(a[1..], b, c, repl);
    } else {
      assert a + b == b;
    }
  }

  lemma {:induction false} TwoPassesByChar(p: string)
    ensures ReplaceAll(ReplaceAll(p, '.', "\\."), '*', ".*") == TranslateAll(p)
  {
    if |p| > 0 {
      var head := if p[0] == '.' then "\\." else [p[0]];
      var esc := ReplaceAll(p[1..], '.', "\\.");
      assert ReplaceAll(p, '.', "\\.") == head + esc;
      ReplaceAllAppend(head, esc, '*', ".*");
      assert ReplaceAll(head, '*', ".*") == Translate(p[0]) by {
        if p[0] == '.' {
          assert head == ['\\'] + ['.'];
          ReplaceAllAppend(['\\'], ['.'], '*', ".*");
        }
      }
      TwoPassesByChar(p[1..]);
    }
  }

  /** A regex source never starts with a quantifier, so the atom before it stays unquantified. */
  lemma RegexSourceHead(p: string)
    ensures RegexSource(p) == [] || RegexSource(p)[0] != '*'
  {
  }

  datatype Atom = Char(c: char) | AnyChar
  datatype Term = Once(atom: Atom) | Star(atom: Atom)

  predicate Admits(a: Atom, c: char) {
    match a
    case Char(x) => c == x
    case AnyChar => !IsLineTerminator(c)
  }

  predicate AllAdmit(a: Atom, w: string) {
    forall i | 0 <= i < |w| :: Admits(a, w[i])
  }

  /** Reads one atom off the front of a regex source: an identity escape of a syntax
      character, the wildcard `.`, or a literal character. Any other construct (a
      quantifier with nothing to repeat, a group, a class, `\d`) is outside this model. */
  function ParseAtom(t: string): (r: Option<(Atom, string)>)
    requires |t| > 0
    ensures r.Some? ==> |r.value.1| < |t| && RenderAtom(r.value.0) + r.value.1 == t
  {
    if t[0] == '\\' then
      if |t| >= 2 && IsSyntaxChar(t[1]) then Some((Char(t[1]), t[2..])) else None
    else if t[0] == '.' then Some((AnyChar, t[1..]))
    else if IsSyntaxChar(t[0]) then None
    else Some((Char(t[0]), t[1..]))
  }

  /** The canonical regex text of an atom: a syntax character is escaped. */
  function RenderAtom(a: Atom): string {
    match a
    case AnyChar => "."
    case Char(c) => if IsSyntaxChar(c) then ['\\', c] else [c]
  }

  /** The canonical regex text of a term sequence. */
  function Render(ts: seq<Term>): string {
    if |ts| == 0 then ""
    else
      match ts[0]
      case Once(a) => RenderAtom(a) + Render(ts[1..])
      case Star(a) => RenderAtom(a) + "*" + Render(ts[1..])
  }

  /** Parses a regex source made of atoms, each optionally followed by `*`. Whatever it
      accepts, it reads back to exactly the text it was given. */
  function ParseRegex(t: string): (r: Option<seq<Term>>)
    ensures r.Some? ==> Render(r.value) == t
    decreases |t|
  {
    if |t| == 0 then Some([])
    else
      match ParseAtom(t)
      case None => None
      case Some((a, rest)) =>
        if |rest| > 0 && rest[0] == '*' then
          match ParseRegex(rest[1..])
          case None => None
          case Some(ts) => Some([Star(a)] + ts)
        else
          match ParseRegex(rest)
          case None => None
          case Some(ts) => Some([Once(a)] + ts)
  }

  /** An atom's canonical text is read back as that atom, whatever follows it. */
  lemma ParseRenderedAtom(a: Atom, rest: string)
    ensures ParseAtom(RenderAtom(a) + rest) == Some((a, rest))
  {
    var t := RenderAtom(a) + rest;
    match a
    case AnyChar =>
      assert t[1..] == rest;
    case Char(c) =>
      if IsSyntaxChar(c) {
        assert t[1] == c && t[2..] == rest;
      } else {
        assert t[1..] == rest;
      }
  }

  /** Rendered text never begins with a quantifier: a literal `*` is written escaped. */
  lemma RenderHead(ts: seq<Term>)
    ensures Render(ts) == [] || Render(ts)[0] != '*'
  {
  }

  /** Parsing one rendered term in front of an already parsed text adds exactly that term. */
  lemma ParseRenderedTerm(a: Atom, star: bool, tail: string, ts: seq<Term>)
    requires |tail| == 0 || tail[0] != '*'
    requires ParseRegex(tail) == Some(ts)
    ensures star ==> ParseRegex(RenderAtom(a) + ("*" + tail)) == Some([Star(a)] + ts)
    ensures !star ==> ParseRegex(RenderAtom(a) + tail) == Some([Once(a)] + ts)
  {
    if star {
      ParseRenderedAtom(a, "*" + tail);
      assert ("*" + tail)[1..] == tail;
    } else {
      ParseRenderedAtom(a, tail);
    }
  }

  /** Parsing the canonical text of a term sequence gives the sequence back, so
      `ParseRegex` and `Render` are inverse on everything the parser accepts. */
  lemma {:induction false} RenderParses(ts: seq<Term>)
    ensures ParseRegex(Render(ts)) == Some(ts)
  {
    if |ts| > 0 {
      var tail := Render(ts[1..]);
      RenderParses(ts[1..]);
      RenderHead(ts[1..]);
      assert ts == [ts[0]] + ts[1..];
      match ts[0]
      case Once(a) =>
        ParseRenderedTerm(a, false, tail, ts[1..]);
      case Star(a) =>
        assert Render(ts) == RenderAtom(a) + ("*" + tail);
        ParseRenderedTerm(a, true, tail, ts[1..]);
    }
  }

  /** `^terms$` matches the whole of `s`. */
  predicate Matches(ts: seq<Term>, s: string)
    decreases |ts|
  {
    if |ts| == 0 then |s| == 0
    else
      match ts[0]
      case Once(a) => |s| > 0 && Admits(a, s[0]) && Matches(ts[1..], s[1..])
      case Star(a) => exists k | 0 <= k <= |s| :: AllAdmit(a, s[..k]) && Matches(ts[1..], s[k..])
  }

  /** `new RegExp(`^${source}$`).test(s)` for the source built from `pattern`; a source
      outside the modelled syntax does not match. For plain patterns the escape-and-expand
      regex and the glob agree on every address. */
  function RegexTest(pattern: string, s: string): (r: bool)
    ensures IsPlainPattern(pattern) ==> (r <==> Glob(pattern, s))
  {
    var r := match ParseRegex(RegexSource(pattern))
      case Some(ts) => Matches(ts, s)
      case None => false;
    assert IsPlainPattern(pattern) ==> (r <==> Glob(pattern, s)) by {
      if IsPlainPattern(pattern) {
        ParseRegexSource(pattern);
        CompileIsGlob(pattern, s);
      }
    }
    r
  }

  /** Reference meaning of a scope pattern: `*` stands for any run of characters other
      than line terminators (empty, or containing dots), every other character for itself. */
  predicate Glob(p: string, s: string)
    decreases |p| + |s|
  {
    if |p| == 0 then |s| == 0
    else if p[0] == '*' then
      Glob(p[1..], s) || (|s| > 0 && !IsLineTerminator(s[0]) && Glob(p, s[1..]))
    else |s| > 0 && p[0] == s[0] && Glob(p[1..], s[1..])
  }

  /** The terms a pattern stands for, read directly off its characters. */
  function Compile(p: string): seq<Term> {
    if |p| == 0 then []
    else [TermOf(p[0])] + Compile(p[1..])
  }

  /** The term one pattern character stands for. */
  function TermOf(c: char): Term {
    if c == '*' then Star(AnyChar) else Once(Char(c))
  }

  /** Parsing one translated character in front of an already parsed source adds
      exactly that character's term. */
  lemma ParseTranslated(c: char, tail: string, ts: seq<Term>)
    requires c == '.' || c == '*' || !IsSyntaxChar(c)
    requires |tail| == 0 || tail[0] != '*'
    requires ParseRegex(tail) == Some(ts)
    ensures ParseRegex(Translate(c) + tail) == Some([TermOf(c)] + ts)
  {
    var t := Translate(c) + tail;
    if c == '.' {
      assert t[2..] == tail;
      assert ParseAtom(t) == Some((Char('.'), tail));
    } else if c == '*' {
      assert t[1..] == ['*'] + tail;
      assert ParseAtom(t) == Some((AnyChar, ['*'] + tail));
      assert (['*'] + tail)[1..] == tail;
    } else {
      assert t[1..] == tail;
      assert ParseAtom(t) == Some((Char(c), tail));
    }
  }

  /** Parsing the rewritten source gives back exactly the pattern's own terms. */
  lemma {:induction false} ParseRegexSource(p: string)
    requires IsPlainPattern(p)
    ensures ParseRegex(RegexSource(p)) == Some(Compile(p))
  {
    if |p| == 0 {
      assert RegexSource(p) == [];
    } else {
      RegexSourceHead(p[1..]);
      assert IsPlainPattern(p[1..]) by {
        forall i | 0 <= i < |p[1..]| ensures p[1..][i] == '.' || p[1..][i] == '*' || !IsSyntaxChar(p[1..][i]) {
          assert p[1..][i] == p[i + 1];
        }
      }
      ParseRegexSource(p[1..]);
      ParseTranslated(p[0], RegexSource(p[1..]), Compile(p[1..]));
      assert Compile(p) == [TermOf(p[0])] + Compile(p[1..]);
    }
  }

  /** A leading `*` of a glob absorbs some prefix free of line terminators. */
  lemma {:induction false} GlobStar(p: string, s: string)
    requires |p| > 0 && p[0] == '*'
    ensures Glob(p, s) <==> exists k | 0 <= k <= |s| :: AllAdmit(AnyChar, s[..k]) && Glob(p[1..], s[k..])
    decreases |s|
  {
    if Glob(p, s) {
      if Glob(p[1..], s) {
        assert AllAdmit(AnyChar, s[..0]) && Glob(p[1..], s[0..]);
      } else {
        GlobStar(p, s[1..]);
        var k :| 0 <= k <= |s[1..]| && AllAdmit(AnyChar, s[1..][..k]) && Glob(p[1..], s[1..][k..]);
        assert s[1..][k..] == s[k + 1..];
        var w := s[..k + 1];
        assert AllAdmit(AnyChar, w) by {
          forall i | 0 <= i < |w| ensures Admits(AnyChar, w[i]) {
            if i > 0 {
              assert w[i] == s[1..][..k][i - 1];
            }
          }
        }
      }
    }
    if exists k | 0 <= k <= |s| :: AllAdmit(AnyChar, s[..k]) && Glob(p[1..], s[k..]) {
      var k :| 0 <= k <= |s| && AllAdmit(AnyChar, s[..k]) && Glob(p[1..], s[k..]);
      if k == 0 {
        assert s[k..] == s;
      } else {
        assert Admits(AnyChar, s[..k][0]);
        assert s[1..][k - 1..] == s[k..];
        var w := s[1..][..k - 1];
        assert AllAdmit(AnyChar, w) by {
          forall i | 0 <= i < |w| ensures Admits(AnyChar, w[i]) {
            assert w[i] == s[..k][i + 1];
          }
        }
        GlobStar(p, s[1..]);
      }
    }
  }

  /** The pattern's terms match exactly the strings the glob accepts. */
  lemma {:induction false} CompileIsGlob(p: string, s: string)
    ensures Matches(Compile(p), s) <==> Glob(p, s)
    decreases |p|
  {
    if |p| == 0 {
    } else if p[0] == '*' {
      var ts := Compile(p);
      assert ts[0] == Star(AnyChar) && ts[1..] == Compile(p[1..]);
      forall k | 0 <= k <= |s|
        ensures Matches(Compile(p[1..]), s[k..]) <==> Glob(p[1..], s[k..])
      {
        CompileIsGlob(p[1..], s[k..]);
      }
      GlobStar(p, s);
    } else {
      var ts := Compile(p);
      assert ts[0] == Once(Char(p[0])) && ts[1..] == Compile(p[1..]);
      if |s| > 0 {
        CompileIsGlob(p[1..], s[1..]);
      }
    }
  }

  /** Every pattern accepts its own text: a `*` may absorb the `*` character itself. */
  lemma {:induction false} GlobSelf(p: string)
    ensures Glob(p, p)
  {
    if |p| > 0 {
      GlobSelf(p[1..]);
      if p[0] == '*' {
        assert Glob(p[1..], p[1..]);
        assert Glob(p, p[1..]);
      }
    }
  }

  /** A literal head of a pattern must be matched character for character. */
  lemma {:induction false} GlobLiteralHead(lit: string, p: string, s: string)
    requires '*' !in lit
    ensures Glob(lit + p, s) <==> (|lit| <= |s| && s[..|lit|] == lit && Glob(p, s[|lit|..]))
  {
    if |lit| > 0 {
      assert (lit + p)[0] == lit[0];
      assert (lit + p)[1..] == lit[1..] + p;
      if |s| > 0 {
        GlobLiteralHead(lit[1..], p, s[1..]);
        if |lit| <= |s| {
          assert s[1..][|lit| - 1..] == s[|lit|..];
          assert s[..|lit|] == [s[0]] + s[1..][..|lit| - 1];
          assert lit == [lit[0]] + lit[1..];
        }
      }
    } else {
      assert lit + p == p;
    }
  }

  /** A lone `*` accepts exactly the strings free of line terminators. */
  lemma {:induction false} GlobLoneStar(s: string)
    ensures Glob("*", s) <==> forall i | 0 <= i < |s| :: !IsLineTerminator(s[i])
  {
    if |s| > 0 {
      GlobLoneStar(s[1..]);
      assert forall i | 1 <= i < |s| :: s[i] == s[1..][i - 1];
    }
  }

  /** A pattern of the form `prefix*` accepts exactly the strings that start with the
      prefix and continue without line terminators: `192.168.1.*` accepts
      `192.168.1.42` and also `192.168.1.` itself. */
  lemma PrefixWildcard(lit: string, s: string)
    requires '*' !in lit
    ensures Glob(lit + "*", s) <==>
      (|lit| <= |s| && s[..|lit|] == lit && forall i | |lit| <= i < |s| :: !IsLineTerminator(s[i]))
  {
    GlobLiteralHead(lit, "*", s);
    if |lit| <= |s| {
      var rest := s[|lit|..];
      GlobLoneStar(rest);
      assert forall i | |lit| <= i < |s| :: s[i] == rest[i - |lit|];
    }
  }
}
