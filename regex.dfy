/** The fragment of JavaScript regular expressions that the scrubber and the slug
    builder use, with the search order of JavaScript's backtracking matcher, and
    `String.prototype.replace` with a global pattern and a constant replacement.

    A pattern is a sequence of tokens: `One(k)` is a single character of class `k`,
    `Opt(body)` is a greedy `(?:body)?`, and `Star(k)` is a greedy `k*`. The other
    quantifiers the sources use are spelled with these: `k+` is `One(k), Star(k)`,
    `k{3}` is three `One(k)`, and a greedy `k{1,3}` is
    `One(k), Opt([One(k), Opt([One(k)])])`, which tries three, two and one
    repetitions in that order, as JavaScript does. Capture groups are not
    modelled: a constant replacement string never refers to them. */
module Regex {
  import opened Common

  datatype CharClass =
    | Exactly(c: char)       // a literal character, escaped or not
    | Digit                  // \d
    | Word                   // \w
    | Space                  // \s
    | WordDotHyphen          // [\w\.-]
    | HyphenDotSpace         // [-.\s]
    | ProfileIdChar          // [a-zA-Z0-9_-]

  predicate InClass(k: CharClass, c: char)
  {
    match k
    case Exactly(d) => c == d
    case Digit => IsDigit(c)
    case Word => IsWordChar(c)
    case Space => IsSpace(c)
    case WordDotHyphen => IsWordChar(c) || c == '.' || c == '-'
    case HyphenDotSpace => c == '-' || c == '.' || IsSpace(c)
    case ProfileIdChar => IsAsciiLetter(c) || IsDigit(c) || c == '_' || c == '-'
  }

  datatype Token = One(cls: CharClass) | Opt(body: seq<Token>) | Star(starCls: CharClass)

  /** A measure that every step of the matcher that does not consume input decreases. */
  function Size(p: seq<Token>): nat
    decreases p
  {
    if p == [] then 0
    else match p[0]
      case Opt(b) => 1 + Size(b) + Size(p[1..])
      case _ => 1 + Size(p[1..])
  }

  lemma {:induction false} SizeAppend(a: seq<Token>, b: seq<Token>)
    ensures Size(a + b) == Size(a) + Size(b)
    decreases a
  {
    if a != [] {
      var ab := a + b;
      assert ab != [] && ab[1..] == a[1..] + b && ab[0] == a[0];
      SizeAppend(a[1..], b);
      match a[0]
      case Opt(body) =>
        assert Size(ab) == 1 + Size(body) + Size(ab[1..]);
      case _ =>
        assert Size(ab) == 1 + Size(ab[1..]);
    } else {
      assert a + b == b;
    }
  }

  /** The pattern that matches the literal text `w`. */
  function Literal(w: string): (p: seq<Token>)
    ensures |p| == |w|
    ensures forall k :: 0 <= k < |w| ==> p[k] == One(Exactly(w[k]))
  {
    if w == [] then [] else [One(Exactly(w[0]))] + Literal(w[1..])
  }

  /** `k+` */
  function Plus(k: CharClass): seq<Token>
  {
    [One(k), Star(k)]
  }

  // ---------------------------------------------------------------------------
  // The matcher

  /** The end of the match of `p` that JavaScript's matcher reports when it is
      started at position `i` of `s`, or `None` when no match starts there.
      Alternatives are tried in the engine's order: a greedy `?` or `*` first
      tries to take a character, and backs off only when the rest fails. */
  function Match(p: seq<Token>, s: string, i: nat): (r: Option<nat>)
    requires i <= |s|
    ensures r.Some? ==> i <= r.value <= |s|
    decreases |s| - i, Size(p)
  {
    if p == [] then Some(i)
    else match p[0]
      case One(k) =>
        if i < |s| && InClass(k, s[i]) then Match(p[1..], s, i + 1) else None
      case Opt(b) =>
        SizeAppend(b, p[1..]);
        var taken := Match(b + p[1..], s, i);
        if taken.Some? then taken else Match(p[1..], s, i)
      case Star(k) =>
        if i < |s| && InClass(k, s[i]) then
          var more := Match(p, s, i + 1);
          if more.Some? then more else Match(p[1..], s, i)
        else Match(p[1..], s, i)
  }

  // ---------------------------------------------------------------------------
  // The language of a pattern, stated without any search order

  /** Every character of `u` is in class `k`. */
  predicate AllIn(k: CharClass, u: string)
  {
    forall j :: 0 <= j < |u| ==> InClass(k, u[j])
  }

  /** `w` is a string the pattern `p` denotes: `w` splits into pieces, one per token. */
  ghost predicate Lang(p: seq<Token>, w: string)
    decreases Size(p), 1
  {
    if p == [] then w == []
    else exists k :: 0 <= k <= |w| && TokenLang(p, w[..k]) && Lang(p[1..], w[k..])
  }

  /** `u` is a string the first token of `p` denotes. */
  ghost predicate TokenLang(p: seq<Token>, u: string)
    requires p != []
    decreases Size(p), 0
  {
    match p[0]
    case One(k) => |u| == 1 && InClass(k, u[0])
    case Opt(b) => u == [] || Lang(b, u)
    case Star(k) => AllIn(k, u)
  }

  /** The first token alone decides TokenLang. */
  lemma TokenLangHead(p: seq<Token>, q: seq<Token>, u: string)
    requires p != [] && q != [] && p[0] == q[0]
    ensures TokenLang(p, u) <==> TokenLang(q, u)
  {
  }

  lemma {:induction false} LangJoin(a: seq<Token>, b: seq<Token>, u: string, v: string)
    requires Lang(a, u) && Lang(b, v)
    ensures Lang(a + b, u + v)
    decreases |a|
  {
    if a == [] {
      assert a + b == b && u + v == v;
    } else {
      var k :| 0 <= k <= |u| && TokenLang(a, u[..k]) && Lang(a[1..], u[k..]);
      LangJoin(a[1..], b, u[k..], v);
      var ab, uv := a + b, u + v;
      assert ab[1..] == a[1..] + b && ab[0] == a[0];
      assert uv[..k] == u[..k] && uv[k..] == u[k..] + v;
      TokenLangHead(a, ab, u[..k]);
      assert 0 <= k <= |uv| && TokenLang(ab, uv[..k]) && Lang(ab[1..], uv[k..]);
    }
  }

  lemma {:induction false} LangSplit(a: seq<Token>, b: seq<Token>, w: string)
    requires Lang(a + b, w)
    ensures exists m :: 0 <= m <= |w| && Lang(a, w[..m]) && Lang(b, w[m..])
    decreases |a|
  {
    if a == [] {
      assert a + b == b && w[..0] == [] && w[0..] == w;
    } else {
      var ab := a + b;
      assert ab[1..] == a[1..] + b && ab[0] == a[0];
      var k :| 0 <= k <= |w| && TokenLang(ab, w[..k]) && Lang(ab[1..], w[k..]);
      LangSplit(a[1..], b, w[k..]);
      var m' :| 0 <= m' <= |w[k..]| && Lang(a[1..], w[k..][..m']) && Lang(b, w[k..][m'..]);
      var m := k + m';
      assert w[..m][..k] == w[..k] && w[..m][k..] == w[k..][..m'] && w[m..] == w[k..][m'..];
      assert TokenLang(a, w[..m][..k]);
    }
  }

  /** Soundness: whatever the matcher reports is a string of the pattern's language. */
  lemma {:induction false} MatchSound(p: seq<Token>, s: string, i: nat)
    requires i <= |s| && Match(p, s, i).Some?
    ensures Lang(p, s[i..Match(p, s, i).value])
    decreases |s| - i, Size(p)
  {
    var j := Match(p, s, i).value;
    var w := s[i..j];
    if p == [] {
    } else {
      match p[0]
      case One(k) =>
        MatchSound(p[1..], s, i + 1);
        assert w[..1] == [s[i]] && w[1..] == s[i + 1..j];
        assert TokenLang(p, w[..1]);
      case Opt(b) =>
        SizeAppend(b, p[1..]);
        if Match(b + p[1..], s, i).Some? {
          MatchSound(b + p[1..], s, i);
          LangSplit(b, p[1..], w);
          var m :| 0 <= m <= |w| && Lang(b, w[..m]) && Lang(p[1..], w[m..]);
          assert TokenLang(p, w[..m]);
        } else {
          MatchSound(p[1..], s, i);
          assert w[..0] == [] && w[0..] == w;
          assert TokenLang(p, w[..0]);
        }
      case Star(k) =>
        if i < |s| && InClass(k, s[i]) && Match(p, s, i + 1).Some? {
          MatchSound(p, s, i + 1);
          var w' := s[i + 1..j];
          var m :| 0 <= m <= |w'| && TokenLang(p, w'[..m]) && Lang(p[1..], w'[m..]);
          assert w[..m + 1] == [s[i]] + w'[..m] && w[m + 1..] == w'[m..];
          assert AllIn(k, w[..m + 1]);
          assert TokenLang(p, w[..m + 1]);
        } else {
          MatchSound(p[1..], s, i);
          assert w[..0] == [] && w[0..] == w;
          assert TokenLang(p, w[..0]);
        }
    }
  }

  /** Completeness: if some string of the language starts at `i`, the matcher
      reports a match there (the backtracking search is exhaustive). */
  lemma {:induction false} MatchComplete(p: seq<Token>, s: string, i: nat, j: nat)
    requires i <= j <= |s| && Lang(p, s[i..j])
    ensures Match(p, s, i).Some?
    decreases |s| - i, Size(p)
  {
    var w := s[i..j];
    if p != [] {
      var k :| 0 <= k <= |w| && TokenLang(p, w[..k]) && Lang(p[1..], w[k..]);
      assert w[k..] == s[i + k..j];
      match p[0]
      case One(c) =>
        assert w[..k][0] == s[i];
        MatchComplete(p[1..], s, i + 1, j);
      case Opt(b) =>
        SizeAppend(b, p[1..]);
        if w[..k] == [] {
          MatchComplete(p[1..], s, i, j);
        } else {
          LangJoin(b, p[1..], w[..k], w[k..]);
          assert w[..k] + w[k..] == w;
          MatchComplete(b + p[1..], s, i, j);
        }
      case Star(c) =>
        if k == 0 {
          MatchComplete(p[1..], s, i, j);
        } else {
          assert w[..k][0] == s[i];
          var w' := s[i + 1..j];
          assert w'[..k - 1] == w[..k][1..] && w'[k - 1..] == w[k..];
          assert TokenLang(p, w'[..k - 1]);
          MatchComplete(p, s, i + 1, j);
        }
    }
  }

  /** `q` is a run of single-character tokens whose classes the characters of
      `w` from position `m` on belong to, one by one. */
  predicate ClassesAt(q: seq<Token>, w: string, m: nat)
  {
    m + |q| <= |w| && forall t :: 0 <= t < |q| ==> q[t].One? && InClass(q[t].cls, w[m + t])
  }

  /** A run of single-character tokens at the front of a pattern fixes the first
      characters of every string of its language. */
  lemma {:induction false} LangFrontOnes(p: seq<Token>, n: nat, w: string)
    requires n <= |p| && forall t :: 0 <= t < n ==> p[t].One?
    requires Lang(p, w)
    ensures ClassesAt(p[..n], w, 0)
    decreases n
  {
    if n > 0 {
      var k :| 0 <= k <= |w| && TokenLang(p, w[..k]) && Lang(p[1..], w[k..]);
      assert k == 1 && w[..k][0] == w[0];
      LangFrontOnes(p[1..], n - 1, w[1..]);
      assert p[1..][..n - 1] == p[1..n];
      forall t | 0 <= t < n ensures p[..n][t].One? && InClass(p[..n][t].cls, w[0 + t]) {
        if t > 0 {
          assert p[..n][t] == p[1..n][t - 1] && w[t] == w[1..][0 + (t - 1)];
        }
      }
    }
  }

  /** A run of single-character tokens at position `at` of a pattern, outside
      every `Opt`: each string of the language holds characters of those
      classes, one after the other. */
  lemma {:induction false} LangMandatoryOnes(p: seq<Token>, at: nat, q: seq<Token>, w: string)
    requires at + |q| <= |p| && p[at..at + |q|] == q && forall t :: 0 <= t < |q| ==> q[t].One?
    requires Lang(p, w)
    ensures exists m: nat :: ClassesAt(q, w, m)
    decreases at
  {
    var n := |q|;
    if at == 0 {
      assert p[..n] == q;
      LangFrontOnes(p, n, w);
      assert ClassesAt(q, w, 0);
    } else {
      var k :| 0 <= k <= |w| && TokenLang(p, w[..k]) && Lang(p[1..], w[k..]);
      assert p[1..][at - 1..at - 1 + n] == q;
      LangMandatoryOnes(p[1..], at - 1, q, w[k..]);
      var m: nat :| ClassesAt(q, w[k..], m);
      forall t | 0 <= t < |q| ensures q[t].One? && InClass(q[t].cls, w[k + m + t]) {
        assert w[k..][m + t] == w[k + m + t];
      }
      assert ClassesAt(q, w, k + m);
    }
  }

  /** A literal piece of a pattern, outside every `Opt`, occurs in each string of
      the pattern's language. */
  lemma LangMandatoryLiteral(p: seq<Token>, at: nat, lit: string, w: string)
    requires at + |lit| <= |p| && p[at..at + |lit|] == Literal(lit)
    requires Lang(p, w)
    ensures Contains(w, lit)
  {
    LangMandatoryOnes(p, at, Literal(lit), w);
    var m: nat :| ClassesAt(Literal(lit), w, m);
    forall t | 0 <= t < |lit| ensures w[m..m + |lit|][t] == lit[t] {
      assert Literal(lit)[t] == One(Exactly(lit[t]));
    }
    assert OccursAt(w, lit, m);
  }

  /** A single character token outside every `Opt`: each string of the language
      holds a character of its class. */
  lemma LangMandatoryClass(p: seq<Token>, at: nat, w: string)
    requires at < |p| && p[at].One?
    requires Lang(p, w)
    ensures HasClassChar(p[at].cls, w)
  {
    LangMandatoryOnes(p, at, [p[at]], w);
    var m: nat :| ClassesAt([p[at]], w, m);
    assert InClass(p[at].cls, w[m + 0]);
  }

  /** What the matcher reports holds a character of each mandatory single-character token. */
  lemma MatchHasClassChar(p: seq<Token>, at: nat, s: string, i: nat)
    requires at < |p| && p[at].One?
    requires i <= |s| && Match(p, s, i).Some?
    ensures HasClassChar(p[at].cls, s[i..Match(p, s, i).value])
  {
    MatchSound(p, s, i);
    LangMandatoryClass(p, at, s[i..Match(p, s, i).value]);
  }

  /** What the matcher reports holds each mandatory literal piece. */
  lemma MatchHasLiteral(p: seq<Token>, at: nat, lit: string, s: string, i: nat)
    requires at + |lit| <= |p| && p[at..at + |lit|] == Literal(lit)
    requires i <= |s| && Match(p, s, i).Some?
    ensures Contains(s[i..Match(p, s, i).value], lit)
  {
    MatchSound(p, s, i);
    LangMandatoryLiteral(p, at, lit, s[i..Match(p, s, i).value]);
  }

  // ---------------------------------------------------------------------------
  // replace(pattern, replacement) with the global flag

  /** `s.replace(/p/g, r)` from position `i` on: the scan looks for a match at
      each position in turn; a match is replaced by `r` and the scan resumes
      where it ended; an empty match inserts `r` and the scan moves on by one
      character, as the ECMAScript algorithm does. */
  function ReplaceFrom(p: seq<Token>, s: string, i: nat, r: string): string
    requires i <= |s|
    decreases |s| - i
  {
    match Match(p, s, i)
    case Some(j) =>
      if j > i then r + ReplaceFrom(p, s, j, r)
      else if i < |s| then r + [s[i]] + ReplaceFrom(p, s, i + 1, r)
      else r
    case None =>
      if i < |s| then [s[i]] + ReplaceFrom(p, s, i + 1, r) else []
  }

  function ReplaceAll(p: seq<Token>, s: string, r: string): string
  {
    ReplaceFrom(p, s, 0, r)
  }

  /** No match anywhere: the text comes back unchanged. */
  lemma {:induction false} ReplaceWithoutMatch(p: seq<Token>, s: string, i: nat, r: string)
    requires i <= |s|
    requires forall k :: i <= k <= |s| ==> Match(p, s, k).None?
    ensures ReplaceFrom(p, s, i, r) == s[i..]
    decreases |s| - i
  {
    if i < |s| {
      ReplaceWithoutMatch(p, s, i + 1, r);
      assert s[i..] == [s[i]] + s[i + 1..];
    }
  }

  /** Positions where nothing matches are copied as they are. */
  lemma {:induction false} ReplaceSkips(p: seq<Token>, s: string, i: nat, m: nat, r: string)
    requires i <= m <= |s|
    requires forall k :: i <= k < m ==> Match(p, s, k).None?
    ensures ReplaceFrom(p, s, i, r) == s[i..m] + ReplaceFrom(p, s, m, r)
    decreases m - i
  {
    if i < m {
      ReplaceSkips(p, s, i + 1, m, r);
      assert s[i..m] == [s[i]] + s[i + 1..m];
    }
  }

  /** `k*` always matches, possibly the empty string. */
  lemma {:induction false} StarMatches(k: CharClass, s: string, i: nat)
    requires i <= |s|
    ensures Match([Star(k)], s, i).Some?
    decreases |s| - i
  {
    assert [Star(k)][1..] == [];
    if i < |s| && InClass(k, s[i]) {
      StarMatches(k, s, i + 1);
    }
  }

  /** `k+` matches at every character of class `k`, and consumes it. */
  lemma PlusMatchesClassChar(k: CharClass, s: string, n: nat)
    requires n < |s| && InClass(k, s[n])
    ensures Match(Plus(k), s, n).Some? && Match(Plus(k), s, n).value > n
  {
    assert Plus(k)[1..] == [Star(k)];
    StarMatches(k, s, n + 1);
  }

  /** `k+` does not match where the character is not of class `k`. */
  lemma PlusNeedsClassChar(k: CharClass, s: string, n: nat)
    requires n <= |s| && (n == |s| || !InClass(k, s[n]))
    ensures Match(Plus(k), s, n).None?
  {
  }

  /** `k*` is greedy: over a run of class-`k` characters it consumes the whole run. */
  lemma {:induction false} StarTakesRun(k: CharClass, s: string, i: nat, j: nat)
    requires i <= j <= |s|
    requires forall n :: i <= n < j ==> InClass(k, s[n])
    requires j == |s| || !InClass(k, s[j])
    ensures Match([Star(k)], s, i) == Some(j)
    decreases j - i
  {
    assert [Star(k)][1..] == [];
    if i < j {
      StarTakesRun(k, s, i + 1, j);
    }
  }

  /** A text without class-`k` characters passes through `k+` replacement unchanged. */
  lemma KeepWithoutClass(k: CharClass, s: string, r: string)
    requires !HasClassChar(k, s)
    ensures ReplaceAll(Plus(k), s, r) == s
  {
    forall n | 0 <= n <= |s| ensures Match(Plus(k), s, n).None? {
      PlusNeedsClassChar(k, s, n);
    }
    ReplaceWithoutMatch(Plus(k), s, 0, r);
  }

  /** A leading part without class-`k` characters is copied as it is. */
  lemma KeepClassFreePrefix(k: CharClass, s: string, n: nat, r: string)
    requires n <= |s| && !HasClassChar(k, s[..n])
    ensures ReplaceAll(Plus(k), s, r) == s[..n] + ReplaceFrom(Plus(k), s, n, r)
  {
    forall m | 0 <= m < n ensures Match(Plus(k), s, m).None? {
      assert s[m] == s[..n][m];
      PlusNeedsClassChar(k, s, m);
    }
    ReplaceSkips(Plus(k), s, 0, n, r);
  }

  /** A single run of class-`k` characters between two texts without any becomes
      one copy of the replacement. */
  lemma CollapseRun(k: CharClass, a: string, w: string, c: string, r: string)
    requires !HasClassChar(k, a) && !HasClassChar(k, c)
    requires w != [] && AllIn(k, w)
    ensures ReplaceAll(Plus(k), a + w + c, r) == a + r + c
  {
    var s := a + w + c;
    var m, e := |a|, |a| + |w|;
    forall n | 0 <= n < m ensures Match(Plus(k), s, n).None? {
      assert s[n] == a[n];
      PlusNeedsClassChar(k, s, n);
    }
    forall n | m <= n < e ensures InClass(k, s[n]) {
      assert s[n] == w[n - m];
    }
    assert e < |s| ==> s[e] == c[0];
    StarTakesRun(k, s, m + 1, e);
    assert Plus(k)[1..] == [Star(k)];
    assert Match(Plus(k), s, m) == Some(e);
    ReplaceLeftmost(Plus(k), s, 0, m, r);
    forall n | e <= n <= |s| ensures Match(Plus(k), s, n).None? {
      assert n < |s| ==> s[n] == c[n - e];
      PlusNeedsClassChar(k, s, n);
    }
    ReplaceWithoutMatch(Plus(k), s, e, r);
    assert s[0..m] == a && s[e..] == c;
  }

  /** The leftmost match after `i` is the first piece replaced; everything before
      it is copied, and the scan resumes after the match, so matches never overlap. */
  lemma {:induction false} ReplaceLeftmost(p: seq<Token>, s: string, i: nat, m: nat, r: string)
    requires i <= m <= |s|
    requires forall k :: i <= k < m ==> Match(p, s, k).None?
    requires Match(p, s, m).Some? && Match(p, s, m).value > m
    ensures ReplaceFrom(p, s, i, r) == s[i..m] + r + ReplaceFrom(p, s, Match(p, s, m).value, r)
    decreases m - i
  {
    if i < m {
      ReplaceLeftmost(p, s, i + 1, m, r);
      assert s[i..m] == [s[i]] + s[i + 1..m];
    }
  }

  /** A text that is one whole match, with nothing matching after it, is
      replaced by one copy of the replacement. */
  lemma ReplaceWholeMatch(p: seq<Token>, s: string, r: string)
    requires s != [] && Match(p, s, 0) == Some(|s|) && Match(p, s, |s|).None?
    ensures ReplaceAll(p, s, r) == r
  {
    assert ReplaceFrom(p, s, |s|, r) == [];
  }

  /** When every character of class `k` starts a non-empty match and the
      replacement has no such character, none is left in the result. */
  lemma {:induction false} ReplaceRemovesClass(p: seq<Token>, k: CharClass, s: string, i: nat, r: string)
    requires i <= |s|
    requires forall n :: i <= n < |s| && InClass(k, s[n]) ==> Match(p, s, n).Some? && Match(p, s, n).value > n
    requires !HasClassChar(k, r)
    ensures !HasClassChar(k, ReplaceFrom(p, s, i, r))
    decreases |s| - i
  {
    match Match(p, s, i)
    case Some(j) =>
      if j > i {
        ReplaceRemovesClass(p, k, s, j, r);
        HasClassCharConcat(k, r, ReplaceFrom(p, s, j, r));
      } else if i < |s| {
        ReplaceRemovesClass(p, k, s, i + 1, r);
        HasClassCharConcat(k, r + [s[i]], ReplaceFrom(p, s, i + 1, r));
        HasClassCharConcat(k, r, [s[i]]);
      }
    case None =>
      if i < |s| {
        ReplaceRemovesClass(p, k, s, i + 1, r);
        HasClassCharConcat(k, [s[i]], ReplaceFrom(p, s, i + 1, r));
      }
  }

  // ---------------------------------------------------------------------------
  // What a replacement leaves behind

  /** No character `c` can be matched by any token of `p`, inside `Opt`s too. */
  predicate Avoids(p: seq<Token>, c: char)
    decreases p
  {
    forall t :: 0 <= t < |p| ==>
      match p[t]
      case One(k) => !InClass(k, c)
      case Opt(b) => Avoids(b, c)
      case Star(k) => !InClass(k, c)
  }

  /** The matcher never consumes a character its pattern avoids. */
  lemma {:induction false} MatchAvoids(p: seq<Token>, c: char, s: string, i: nat)
    requires Avoids(p, c)
    requires i <= |s| && Match(p, s, i).Some?
    ensures forall n :: i <= n < Match(p, s, i).value ==> s[n] != c
    decreases |s| - i, Size(p)
  {
    if p != [] {
      assert Avoids(p[1..], c) by {
        forall t | 0 <= t < |p[1..]| ensures p[1..][t] == p[t + 1] { }
      }
      match p[0]
      case One(k) =>
        MatchAvoids(p[1..], c, s, i + 1);
      case Opt(b) =>
        SizeAppend(b, p[1..]);
        if Match(b + p[1..], s, i).Some? {
          assert Avoids(b + p[1..], c) by {
            forall t | 0 <= t < |b + p[1..]|
              ensures (b + p[1..])[t] == if t < |b| then b[t] else p[1..][t - |b|] { }
          }
          MatchAvoids(b + p[1..], c, s, i);
        } else {
          MatchAvoids(p[1..], c, s, i);
        }
      case Star(k) =>
        if i < |s| && InClass(k, s[i]) && Match(p, s, i + 1).Some? {
          MatchAvoids(p, c, s, i + 1);
        } else {
          MatchAvoids(p[1..], c, s, i);
        }
    }
  }

  lemma AvoidsConcat(a: seq<Token>, b: seq<Token>, c: char)
    requires Avoids(a, c) && Avoids(b, c)
    ensures Avoids(a + b, c)
  {
    forall t | 0 <= t < |a + b| ensures (a + b)[t] == if t < |a| then a[t] else b[t - |a|] { }
  }

  lemma AvoidsLiteral(w: string, c: char)
    requires c !in w
    ensures Avoids(Literal(w), c)
  {
    forall t | 0 <= t < |w| ensures Literal(w)[t] == One(Exactly(w[t])) && w[t] != c { }
  }

  /** No match of `q` starts anywhere in `s`. */
  predicate NoMatch(q: seq<Token>, s: string)
  {
    forall k :: 0 <= k <= |s| ==> Match(q, s, k).None?
  }

  /** Every match of `p` from position `i` on consumes at least one character. */
  predicate NonEmptyMatches(p: seq<Token>, s: string, i: nat)
    requires i <= |s|
  {
    forall k :: i <= k <= |s| && Match(p, s, k).Some? ==> Match(p, s, k).value > k
  }

  /** A replacement text opened by `[` and closed by `]`, like the scrubber's placeholders. */
  predicate Bracketed(r: string)
  {
    |r| >= 2 && r[0] == '[' && r[|r| - 1] == ']'
  }

  /** One step of the scan at a match: the replacement, then the scan after it. */
  lemma ReplaceAtMatch(p: seq<Token>, u: string, i: nat, r: string)
    requires i <= |u| && Match(p, u, i).Some? && Match(p, u, i).value > i
    ensures ReplaceFrom(p, u, i, r) == r + ReplaceFrom(p, u, Match(p, u, i).value, r)
  {
  }

  /** One step of the scan where nothing matches: the character, then the scan after it. */
  lemma ReplaceAtNoMatch(p: seq<Token>, u: string, i: nat, r: string)
    requires i < |u| && Match(p, u, i).None?
    ensures ReplaceFrom(p, u, i, r) == [u[i]] + ReplaceFrom(p, u, i + 1, r)
  {
  }

  /** A stretch of `r + w` either lies inside `r`, or lies inside `w`, or holds
      the last character of `r`. */
  lemma WindowOfConcat(r: string, w: string, x: nat, y: nat)
    requires r != [] && x <= y <= |r| + |w|
    ensures y <= |r| ==> (r + w)[x..y] == r[x..y]
    ensures x >= |r| ==> (r + w)[x..y] == w[x - |r|..y - |r|]
    ensures x < |r| < y ==> r[|r| - 1] in (r + w)[x..y]
  {
    if x < |r| < y {
      assert (r + w)[x..y][|r| - 1 - x] == r[|r| - 1];
    }
  }

  /** A leading part of the output without `[` was copied from the input, from
      positions where no match starts. */
  lemma {:induction false} CopiedPrefix(p: seq<Token>, u: string, i: nat, r: string, y: nat)
    requires i <= |u| && NonEmptyMatches(p, u, i) && Bracketed(r)
    requires y <= |ReplaceFrom(p, u, i, r)|
    ensures '[' !in ReplaceFrom(p, u, i, r)[..y] ==>
      && i + y <= |u| && ReplaceFrom(p, u, i, r)[..y] == u[i..i + y]
      && forall k :: i <= k < i + y ==> Match(p, u, k).None?
    decreases y
  {
    var v := ReplaceFrom(p, u, i, r);
    if Match(p, u, i).Some? {
      ReplaceAtMatch(p, u, i, r);
      if y > 0 {
        assert v[..y][0] == '[';
      }
    } else if i < |u| && y > 0 {
      ReplaceAtNoMatch(p, u, i, r);
      var v' := ReplaceFrom(p, u, i + 1, r);
      assert v[..y] == [u[i]] + v'[..y - 1];
      CopiedPrefix(p, u, i + 1, r, y - 1);
      if '[' !in v[..y] {
        assert '[' !in v'[..y - 1];
        assert u[i..i + y] == [u[i]] + u[i + 1..i + y];
      }
    }
  }

  /** A stretch of the output without brackets lies inside one copy of the
      replacement, or was copied from the input starting at a position where no
      match starts; `inMark` says which, and `at` says where. */
  lemma {:induction false} CopiedWindow(p: seq<Token>, u: string, i: nat, r: string, x: nat, y: nat)
    returns (inMark: bool, at: nat)
    requires i <= |u| && NonEmptyMatches(p, u, i) && Bracketed(r)
    requires x <= y <= |ReplaceFrom(p, u, i, r)|
    ensures var w := ReplaceFrom(p, u, i, r)[x..y];
      '[' !in w && ']' !in w ==>
      && (inMark ==> at + |w| <= |r| && r[at..at + |w|] == w)
      && (!inMark ==> i <= at && at + |w| <= |u| && u[at..at + |w|] == w && Match(p, u, at).None?)
    decreases |u| - i, 1
  {
    if Match(p, u, i).Some? {
      inMark, at := WindowAtMatch(p, u, i, r, x, y);
    } else if i == |u| {
      inMark, at := true, 0;
    } else if x == 0 {
      CopiedPrefix(p, u, i, r, y);
      inMark, at := false, i;
    } else {
      inMark, at := WindowAfterCopy(p, u, i, r, x, y);
    }
  }

  /** CopiedWindow where a match starts the scan. */
  lemma {:induction false} WindowAtMatch(p: seq<Token>, u: string, i: nat, r: string, x: nat, y: nat)
    returns (inMark: bool, at: nat)
    requires i <= |u| && NonEmptyMatches(p, u, i) && Bracketed(r) && Match(p, u, i).Some?
    requires x <= y <= |ReplaceFrom(p, u, i, r)|
    ensures var w := ReplaceFrom(p, u, i, r)[x..y];
      '[' !in w && ']' !in w ==>
      && (inMark ==> at + |w| <= |r| && r[at..at + |w|] == w)
      && (!inMark ==> i <= at && at + |w| <= |u| && u[at..at + |w|] == w && Match(p, u, at).None?)
    decreases |u| - i, 0
  {
    var j := Match(p, u, i).value;
    ReplaceAtMatch(p, u, i, r);
    var v' := ReplaceFrom(p, u, j, r);
    WindowOfConcat(r, v', x, y);
    if y <= |r| {
      inMark, at := true, x;
    } else if x >= |r| {
      inMark, at := CopiedWindow(p, u, j, r, x - |r|, y - |r|);
    } else {
      inMark, at := true, 0;
    }
  }

  /** CopiedWindow past a copied first character. */
  lemma {:induction false} WindowAfterCopy(p: seq<Token>, u: string, i: nat, r: string, x: nat, y: nat)
    returns (inMark: bool, at: nat)
    requires i < |u| && NonEmptyMatches(p, u, i) && Bracketed(r) && Match(p, u, i).None?
    requires 0 < x <= y <= |ReplaceFrom(p, u, i, r)|
    ensures var w := ReplaceFrom(p, u, i, r)[x..y];
      '[' !in w && ']' !in w ==>
      && (inMark ==> at + |w| <= |r| && r[at..at + |w|] == w)
      && (!inMark ==> i <= at && at + |w| <= |u| && u[at..at + |w|] == w && Match(p, u, at).None?)
    decreases |u| - i, 0
  {
    ReplaceAtNoMatch(p, u, i, r);
    var v' := ReplaceFrom(p, u, i + 1, r);
    WindowOfConcat([u[i]], v', x, y);
    inMark, at := CopiedWindow(p, u, i + 1, r, x - 1, y - 1);
  }

  /** What a slice holds, the whole text holds. */
  lemma ClassCharSlice(k: CharClass, s: string, i: nat, j: nat)
    requires i <= j <= |s| && HasClassChar(k, s[i..j])
    ensures HasClassChar(k, s)
  {
    var m :| 0 <= m < |s[i..j]| && InClass(k, s[i..j][m]);
    assert s[i..j][m] == s[i + m];
  }

  /** No piece of a text lacking the class of a mandatory token is a word of the pattern. */
  lemma NoWordWithoutClass(p: seq<Token>, at: nat, r: string)
    requires at < |p| && p[at].One? && !HasClassChar(p[at].cls, r)
    ensures forall a, b :: 0 <= a <= b <= |r| ==> !Lang(p, r[a..b])
  {
    forall a, b | 0 <= a <= b <= |r| ensures !Lang(p, r[a..b]) {
      if Lang(p, r[a..b]) {
        LangMandatoryClass(p, at, r[a..b]);
        ClassCharSlice(p[at].cls, r, a, b);
      }
    }
  }

  /** No piece of a text lacking a mandatory literal of the pattern is a word of it. */
  lemma NoWordWithoutLiteral(p: seq<Token>, at: nat, lit: string, r: string)
    requires at + |lit| <= |p| && p[at..at + |lit|] == Literal(lit) && !Contains(r, lit)
    ensures forall a, b :: 0 <= a <= b <= |r| ==> !Lang(p, r[a..b])
  {
    forall a, b | 0 <= a <= b <= |r| ensures !Lang(p, r[a..b]) {
      if Lang(p, r[a..b]) {
        LangMandatoryLiteral(p, at, lit, r[a..b]);
        ContainsSlice(r, a, b, lit);
      }
    }
  }

  /** A pattern with a mandatory single-character token never matches the empty string. */
  lemma NonEmptyByClass(p: seq<Token>, at: nat, s: string)
    requires at < |p| && p[at].One?
    ensures NonEmptyMatches(p, s, 0)
  {
    forall k | 0 <= k <= |s| && Match(p, s, k).Some? ensures Match(p, s, k).value > k {
      MatchHasClassChar(p, at, s, k);
    }
  }

  /** A pattern with a mandatory non-empty literal never matches the empty string. */
  lemma NonEmptyByLiteral(p: seq<Token>, at: nat, lit: string, s: string)
    requires at + |lit| <= |p| && p[at..at + |lit|] == Literal(lit) && lit != []
    ensures NonEmptyMatches(p, s, 0)
  {
    forall k | 0 <= k <= |s| && Match(p, s, k).Some? ensures Match(p, s, k).value > k {
      MatchHasLiteral(p, at, lit, s, k);
    }
  }

  /** A text where the pattern matches nowhere passes through replacement unchanged. */
  lemma KeepWithoutMatch(p: seq<Token>, s: string, r: string)
    requires NoMatch(p, s)
    ensures ReplaceAll(p, s, r) == s
  {
    ReplaceWithoutMatch(p, s, 0, r);
    assert s[0..] == s;
  }

  /** After `u.replace(/p/g, r)` with a bracketed `r`, a pattern `q` that can
      match neither a bracket nor any piece of `r` matches nowhere in the
      result, when it matched nowhere in `u`. With `q` the replaced pattern
      itself the premise is not needed: the replacement leaves no match of its
      own pattern behind. */
  lemma PassLeavesNoMatch(p: seq<Token>, u: string, r: string, q: seq<Token>)
    requires NonEmptyMatches(p, u, 0) && Bracketed(r)
    requires Avoids(q, '[') && Avoids(q, ']')
    requires forall a, b :: 0 <= a <= b <= |r| ==> !Lang(q, r[a..b])
    requires q == p || NoMatch(q, u)
    ensures NoMatch(q, ReplaceAll(p, u, r))
  {
    var v := ReplaceAll(p, u, r);
    forall x | 0 <= x <= |v| ensures Match(q, v, x).None? {
      if Match(q, v, x).Some? {
        var y := Match(q, v, x).value;
        MatchAvoids(q, '[', v, x);
        MatchAvoids(q, ']', v, x);
        MatchSound(q, v, x);
        var inMark, at := CopiedWindow(p, u, 0, r, x, y);
        if inMark {
          assert false;
        } else {
          MatchComplete(q, u, at, at + (y - x));
        }
      }
    }
  }

  lemma HasClassCharConcat(k: CharClass, a: string, b: string)
    ensures HasClassChar(k, a + b) <==> HasClassChar(k, a) || HasClassChar(k, b)
  {
    if HasClassChar(k, a + b) {
      var j :| 0 <= j < |a + b| && InClass(k, (a + b)[j]);
      if j >= |a| {
        assert b[j - |a|] == (a + b)[j];
      }
    }
    if HasClassChar(k, b) {
      var j :| 0 <= j < |b| && InClass(k, b[j]);
      assert (a + b)[|a| + j] == b[j];
    }
    if HasClassChar(k, a) {
      var j :| 0 <= j < |a| && InClass(k, a[j]);
      assert (a + b)[j] == a[j];
    }
  }

  /** Some character of `u` is in class `k`. */
  predicate HasClassChar(k: CharClass, u: string)
  {
    exists j :: 0 <= j < |u| && InClass(k, u[j])
  }
}
