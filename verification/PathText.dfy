/**
 Paths and keys as text: std::to_string of uuids, the keys "<parent uuid>:<name>", splitting at '/' with
 adjacent separators merged (boost::split with token_compress_on), and parent_path and filename on canonical
 paths.
 */
module PathText {
  type Name = string
  type Path = seq<Name>

  datatype Key = Root | Sub(parent: nat, name: Name)

  // ---------- numbers ----------

  function Digit(d: nat): char
    requires d < 10
  {
    "0123456789"[d]
  }

  function DigitValue(c: char): int {
    c as int - '0' as int
  }

  lemma DigitInjective(d: nat)
    requires d < 10
    ensures DigitValue(Digit(d)) == d && Digit(d) != ':' && Digit(d) != '/'
  {
    assert d == 0 || d == 1 || d == 2 || d == 3 || d == 4 || d == 5 || d == 6 || d == 7 || d == 8 || d == 9;
  }

  /** std::to_string. */
  function Dec(n: nat): string {
    if n < 10 then [Digit(n)] else Dec(n / 10) + [Digit(n % 10)]
  }

  lemma {:induction false} DecPlain(n: nat)
    ensures Dec(n) != [] && ':' !in Dec(n) && '/' !in Dec(n)
  {
    DigitInjective(n % 10);
    if n >= 10 { DecPlain(n / 10); }
  }

  lemma {:induction false} DecInjective(m: nat, n: nat)
    requires Dec(m) == Dec(n)
    ensures m == n
  {
    DigitInjective(m % 10);
    DigitInjective(n % 10);
    DecPlain(m / 10);
    DecPlain(n / 10);
    assert Dec(m)[|Dec(m)| - 1] == Digit(m % 10) && Dec(n)[|Dec(n)| - 1] == Digit(n % 10);
    if m >= 10 && n >= 10 {
      assert Dec(m)[..|Dec(m)| - 1] == Dec(m / 10) && Dec(n)[..|Dec(n)| - 1] == Dec(n / 10);
      DecInjective(m / 10, n / 10);
    } else {
      assert |Dec(m)| == |Dec(n)|;
    }
  }

  // ---------- keys ----------

  function KeyText(k: Key): string {
    match k
    case Root => "/"
    case Sub(p, n) => Dec(p) + ":" + n
  }

  /** The position of the first c, or the length. */
  function First(c: char, t: string): (i: nat)
    ensures i <= |t|
  {
    if t == "" || t[0] == c then 0 else First(c, t[1..]) + 1
  }

  lemma {:induction false} FirstAt(c: char, n: string, t: string)
    requires c !in n && (t == "" || t[0] == c)
    ensures First(c, n + t) == |n|
  {
    if n == "" {
      assert n + t == t;
    } else {
      assert (n + t)[1..] == n[1..] + t;
      assert n == [n[0]] + n[1..];
      FirstAt(c, n[1..], t);
    }
  }

  /** Text before the first colon determines itself. */
  lemma ColonSplit(a: string, m: string, b: string, n: string)
    requires ':' !in a && ':' !in b && a + ":" + m == b + ":" + n
    ensures a == b && m == n
  {
    var s, t := a + ":" + m, b + ":" + n;
    assert s == a + (":" + m) && t == b + (":" + n);
    FirstAt(':', a, ":" + m);
    FirstAt(':', b, ":" + n);
    assert s[..|a|] == a && t[..|b|] == b && s[|a| + 1..] == m && t[|b| + 1..] == n;
  }

  lemma SubTextStart(p: nat, n: Name)
    ensures KeyText(Sub(p, n)) != "" && KeyText(Sub(p, n))[0] != '/'
  {
    DecPlain(p);
    assert KeyText(Sub(p, n))[0] == Dec(p)[0] && Dec(p)[0] in Dec(p);
  }

  /** The text of a key determines the parent uuid and the name. */
  lemma KeyTextInjective(k: Key, l: Key)
    requires KeyText(k) == KeyText(l)
    ensures k == l
  {
    match (k, l) {
      case (Sub(p, m), Sub(q, n)) =>
        DecPlain(p);
        DecPlain(q);
        ColonSplit(Dec(p), m, Dec(q), n);
        DecInjective(p, q);
      case (Root, Sub(q, n)) => SubTextStart(q, n);
      case (Sub(p, m), Root) => SubTextStart(p, m);
      case _ =>
    }
  }

  // ---------- paths ----------

  /** Names as they come from canonical paths. */
  predicate ProperName(n: Name): (proper: bool)
    ensures proper <==> |n| > 0 && forall i :: 0 <= i < |n| ==> n[i] != '/'
  {
    n != "" && '/' !in n
  }

  predicate ProperPath(p: Path): (proper: bool)
    ensures proper <==> forall n :: n in p ==> ProperName(n)
  {
    forall i :: 0 <= i < |p| ==> ProperName(p[i])
  }

  function RenderTail(p: Path): string {
    if p == [] then "" else "/" + p[0] + RenderTail(p[1..])
  }

  /** The canonical text of a path. */
  function Render(p: Path): string {
    if p == [] then "/" else RenderTail(p)
  }

  function Skip(c: char, t: string): (r: string)
    ensures |r| <= |t|
    ensures t != "" && t[0] == c ==> |r| < |t|
  {
    if t != "" && t[0] == c then Skip(c, t[1..]) else t
  }

  /** boost::split at c, adjacent separators merged. */
  function Split(c: char, t: string): (r: seq<string>)
    ensures r != []
    decreases |t|
  {
    var i := First(c, t);
    if i == |t| then [t] else [t[..i]] + Split(c, Skip(c, t[i..]))
  }

  /** The names get_uuid looks up, in order: everything after the first token. */
  function Components(t: string): Path {
    if t == "/" || t == "" then [] else Split('/', t)[1..]
  }

  lemma SplitPlain(c: char, n: string)
    requires c !in n
    ensures Split(c, n) == [n]
  {
    FirstAt(c, n, "");
    assert n + "" == n;
  }

  lemma SplitStep(c: char, n: string, rest: string)
    requires c !in n && rest != "" && rest[0] != c
    ensures Split(c, n + [c] + rest) == [n] + Split(c, rest)
  {
    var t := n + [c] + rest;
    assert t == n + ([c] + rest);
    FirstAt(c, n, [c] + rest);
    assert t[|n|..] == [c] + rest && t[..|n|] == n;
    SkipOne(c, rest);
  }

  lemma SkipOne(c: char, rest: string)
    requires rest != "" && rest[0] != c
    ensures Skip(c, [c] + rest) == rest
  {
    assert ([c] + rest)[1..] == rest;
  }

  // ---------- any text ----------

  lemma {:induction false} FirstConcat(c: char, t: string, x: string)
    ensures First(c, t) < |t| ==> First(c, t + x) == First(c, t) && t[First(c, t)] == c
    ensures First(c, t) == |t| ==> First(c, t + x) == |t| + First(c, x) && c !in t
  {
    if t == "" {
      assert t + x == x;
    } else {
      assert (t + x)[1..] == t[1..] + x && t == [t[0]] + t[1..];
      if t[0] != c { FirstConcat(c, t[1..], x); }
    }
  }

  lemma {:induction false} SkipConcat(c: char, t: string, x: string)
    ensures Skip(c, t + x) == if Skip(c, t) == "" then Skip(c, x) else Skip(c, t) + x
  {
    if t == "" {
      assert t + x == x;
    } else {
      assert (t + x)[1..] == t[1..] + x;
      if t[0] == c { SkipConcat(c, t[1..], x); }
    }
  }

  /** Separators next to each other count as one, wherever they are. */
  lemma {:induction false} SeparatorsMerge(c: char, t: string, u: string)
    ensures Split(c, t + ([c, c] + u)) == Split(c, t + ([c] + u))
    decreases |t|
  {
    var x, y := [c, c] + u, [c] + u;
    FirstConcat(c, t, x);
    FirstConcat(c, t, y);
    assert x[1..] == y && y[1..] == u;
    var i := First(c, t);
    if i == |t| {
      assert (t + x)[i..] == x && (t + y)[i..] == y && (t + x)[..i] == (t + y)[..i] == t;
    } else {
      var rest := t[i..];
      assert (t + x)[i..] == rest + x && (t + y)[i..] == rest + y && (t + x)[..i] == (t + y)[..i] == t[..i];
      SkipConcat(c, rest, x);
      SkipConcat(c, rest, y);
      if Skip(c, rest) != "" { SeparatorsMerge(c, Skip(c, rest), u); }
    }
  }

  /** No token contains a separator, and a separator at the end leaves an empty last token. */
  lemma {:induction false} TokensClean(c: char, t: string, k: nat)
    requires k < |Split(c, t)|
    ensures c !in Split(c, t)[k]
    ensures t != "" && t[|t| - 1] == c ==> Split(c, t)[|Split(c, t)| - 1] == ""
    decreases |t|
  {
    var i := First(c, t);
    FirstConcat(c, t, "");
    if i == |t| {
      if t != "" { assert t[|t| - 1] in t; }
    } else {
      var rest := Skip(c, t[i..]);
      SkipEnd(c, t[i..]);
      FirstConcat(c, t[..i], t[i..]);
      assert t == t[..i] + t[i..];
      TokensClean(c, rest, if k > 0 then k - 1 else 0);
      if rest == "" { SplitPlain(c, rest); }
    }
  }

  lemma {:induction false} SkipEnd(c: char, t: string)
    ensures Skip(c, t) != "" ==> t != "" && Skip(c, t)[|Skip(c, t)| - 1] == t[|t| - 1]
  {
    if t != "" && t[0] == c { SkipEnd(c, t[1..]); }
  }

  // ---------- listings ----------

  /** boost::join with "\t". */
  function Join(names: seq<Name>): string {
    if names == [] then "" else if |names| == 1 then names[0] else names[0] + "\t" + Join(names[1..])
  }

  /** Split at the tabs, the text of a listing of plain names is that listing again. */
  lemma {:induction false} SplitJoin(names: seq<Name>)
    requires names != [] && forall i :: 0 <= i < |names| ==> names[i] != "" && '\t' !in names[i]
    ensures Split('\t', Join(names)) == names
  {
    hide Split;
    if |names| == 1 {
      SplitPlain('\t', names[0]);
    } else {
      var rest := names[1..];
      SplitJoin(rest);
      JoinStarts(rest);
      SplitStep('\t', names[0], Join(rest));
      assert ['\t'] == "\t" && names == [names[0]] + rest;
    }
  }

  lemma JoinStarts(names: seq<Name>)
    requires names != [] && names[0] != "" && '\t' !in names[0]
    ensures Join(names) != "" && Join(names)[0] != '\t'
  {
    assert Join(names)[0] == names[0][0] && names[0][0] in names[0];
  }

  /**
   A listing of names that are not empty can be read back exactly if it has entries and no name contains a tab. An
   empty one reads as a single empty name.
   */
  lemma SplitJoinIff(names: seq<Name>)
    requires forall i :: 0 <= i < |names| ==> names[i] != ""
    ensures Split('\t', Join(names)) == names <==> names != [] && forall i :: 0 <= i < |names| ==> '\t' !in names[i]
    ensures names == [] ==> Split('\t', Join(names)) == [""]
  {
    if names == [] { SplitPlain('\t', ""); }
    if Split('\t', Join(names)) == names {
      forall i | 0 <= i < |names| ensures '\t' !in names[i] { TokensClean('\t', Join(names), i); }
    } else if names != [] && forall i :: 0 <= i < |names| ==> '\t' !in names[i] {
      SplitJoin(names);
    }
  }

  // ---------- canonical text ----------

  lemma {:induction false} SplitTail(n: Name, q: Path)
    requires ProperName(n) && ProperPath(q)
    ensures Split('/', n + RenderTail(q)) == [n] + q
    decreases |q|
  {
    hide Split;
    if q == [] {
      SplitPlain('/', n);
      assert n + RenderTail(q) == n;
    } else {
      var rest := q[0] + RenderTail(q[1..]);
      StartsProper(q[0], RenderTail(q[1..]));
      SplitStep('/', n, rest);
      assert n + RenderTail(q) == n + "/" + rest;
      SplitTail(q[0], q[1..]);
      assert [q[0]] + q[1..] == q;
    }
  }

  lemma StartsProper(n: Name, t: string)
    requires ProperName(n)
    ensures n + t != "" && (n + t)[0] != '/'
  {
    assert (n + t)[0] == n[0] && n[0] in n;
  }

  /** Splitting the canonical text of a path gives back the path. */
  lemma ComponentsRender(p: Path)
    requires ProperPath(p)
    ensures Components(Render(p)) == p
  {
    hide Split;
    if p != [] {
      var rest := p[0] + RenderTail(p[1..]);
      StartsProper(p[0], RenderTail(p[1..]));
      SplitStep('/', "", rest);
      assert Render(p) == "" + "/" + rest;
      SplitTail(p[0], p[1..]);
      assert [p[0]] + p[1..] == p;
    }
  }

  /** With a '/' at the end, a lookup looks for an entry with an empty name. */
  lemma TrailingSlash(p: Path)
    requires ProperPath(p) && p != []
    ensures |Components(Render(p) + "/")| > 0 && Components(Render(p) + "/")[|Components(Render(p) + "/")| - 1] == ""
  {
    var t := Render(p) + "/";
    TokensClean('/', t, 0);
    FirstConcat('/', RenderTail(p), "/");
    assert t[0] == '/' && First('/', t) == 0 && |t| > 1;
  }

  /** The position of the last '/', or -1. */
  function LastSlash(t: string): (i: int)
    ensures -1 <= i < |t|
  {
    if t == "" then -1
    else if t[|t| - 1] == '/' then |t| - 1
    else LastSlash(t[..|t| - 1])
  }

  /** path::parent_path on canonical text. */
  function ParentPath(t: string): string {
    if LastSlash(t) <= 0 then "/" else t[..LastSlash(t)]
  }

  /** path::filename on canonical text; the root is its own file name. */
  function FilenameOf(t: string): string {
    if t == "/" then "/" else t[LastSlash(t) + 1..]
  }

  lemma {:induction false} RenderTailLast(p: Path, n: Name)
    ensures RenderTail(p + [n]) == RenderTail(p) + "/" + n
  {
    if p == [] {
      assert [n][1..] == [];
    } else {
      assert (p + [n])[1..] == p[1..] + [n];
      RenderTailLast(p[1..], n);
    }
  }

  lemma {:induction false} LastSlashAt(t: string, n: string)
    requires '/' !in n
    ensures LastSlash(t + "/" + n) == |t|
  {
    var s := t + "/" + n;
    if n != "" {
      var front := n[..|n| - 1];
      assert n == front + [n[|n| - 1]];
      assert s[..|s| - 1] == t + "/" + front;
      LastSlashAt(t, front);
    }
  }

  /** parent_path and filename take a canonical path apart. */
  lemma RenderParent(p: Path)
    requires ProperPath(p) && p != []
    ensures ParentPath(Render(p)) == Render(p[..|p| - 1]) && FilenameOf(Render(p)) == p[|p| - 1] && Render(p) != "/"
  {
    var front, n := p[..|p| - 1], p[|p| - 1];
    assert p == front + [n];
    RenderTailLast(front, n);
    LastSlashAt(RenderTail(front), n);
    if front != [] { assert |RenderTail(front)| > 0; }
    var t := RenderTail(front) + "/" + n;
    assert t[..|RenderTail(front)|] == RenderTail(front) && t[|RenderTail(front)| + 1..] == n;
  }
}
