/**
  Canonical type names (`StrictType::strict_name`, rust/src/types.rs).

  The host's `any::type_name::<Self>()` is compiler reflection; here it is the
  input string `typeName`. The derivation is built from the standard string
  operations it uses: `rsplit_once("::")`, `split_once("<")`,
  `trim_end_matches('>')` and `split(',')`.
*/
module StrictNames {
  import opened Base

  /** The namespace separator "::" starts at position `i` of `s`. */
  predicate SepAt(s: string, i: int) {
    0 <= i && i + 1 < |s| && s[i] == ':' && s[i + 1] == ':'
  }

  predicate HasSep(s: string) {
    exists i | 0 <= i < |s| :: SepAt(s, i)
  }

  /** Start of the last "::" in `s`, as `str::rfind` finds it. */
  function RFindSep(s: string): (r: Option<nat>)
    ensures r.None? <==> !HasSep(s)
    ensures r.Some? ==> SepAt(s, r.value) && forall j | r.value < j < |s| :: !SepAt(s, j)
  {
    if |s| < 2 then None
    else if s[|s| - 2] == ':' && s[|s| - 1] == ':' then
      assert SepAt(s, |s| - 2);
      Some(|s| - 2)
    else
      var prefix := s[..|s| - 1];
      var r := RFindSep(prefix);
      assert forall j | 0 <= j < |s| - 2 :: SepAt(s, j) == SepAt(prefix, j);
      assert !SepAt(s, |s| - 2) && !SepAt(s, |s| - 1);
      assert r.Some? ==> SepAt(s, r.value);
      assert HasSep(s) ==> HasSep(prefix) by {
        if HasSep(s) {
          var i :| 0 <= i < |s| && SepAt(s, i);
          assert SepAt(prefix, i);
        }
      }
      r
  }

  /**
    `get_ident`: the text after the last "::", or the whole path when it has
    none. The result is a suffix of the path that holds no "::".
  */
  function GetIdent(path: string): string {
    match RFindSep(path)
    case None => path
    case Some(i) => path[i + 2..]
  }

  /**
    `get_ident` returns a suffix of its path; with a "::" in the path, the
    suffix starts right after the last one and holds none itself.
  */
  lemma GetIdentUnqualified(path: string)
    ensures var r := GetIdent(path);
      |r| <= |path| && r == path[|path| - |r|..]
    ensures !HasSep(path) ==> GetIdent(path) == path
    ensures var r := GetIdent(path); HasSep(path) ==>
      && |r| + 2 <= |path|
      && SepAt(path, |path| - |r| - 2)
      && (forall j | |path| - |r| - 2 < j < |path| :: !SepAt(path, j))
      && !HasSep(r)
  {
    match RFindSep(path)
    case None =>
    case Some(i) =>
      var r := path[i + 2..];
      assert forall j | 0 <= j < |r| :: SepAt(r, j) == SepAt(path, i + 2 + j);
  }

  /** Index of the first `c` in `s`, as `str::find` finds it. */
  function FindChar(s: string, c: char): (r: Option<nat>)
    ensures r.None? <==> c !in s
    ensures r.Some? ==> r.value < |s| && s[r.value] == c && c !in s[..r.value]
  {
    if |s| == 0 then None
    else if s[0] == c then Some(0)
    else
      match FindChar(s[1..], c)
      case None => None
      case Some(i) =>
        assert s[..i + 1] == [s[0]] + s[1..][..i];
        Some(i + 1)
  }

  /** The first `c` of `prefix + [c] + rest` is the one after a `c`-free `prefix`. */
  lemma {:induction false} FindCharAt(prefix: string, c: char, rest: string)
    requires c !in prefix
    ensures FindChar(prefix + [c] + rest, c) == Some(|prefix|)
    decreases |prefix|
  {
    var s := prefix + [c] + rest;
    if |prefix| > 0 {
      assert s[1..] == prefix[1..] + [c] + rest;
      FindCharAt(prefix[1..], c, rest);
    }
  }

  /**
    `name.split_once("<").unwrap_or((name, ""))`: the base before the first
    '<' and the generic tail after it.
  */
  function SplitGenerics(name: string): (string, string) {
    match FindChar(name, '<')
    case None => (name, "")
    case Some(k) => (name[..k], name[k + 1..])
  }

  /**
    Without '<' the whole name is the base and the tail is empty; otherwise
    the base holds no '<' and base, '<' and tail put back together give the name.
  */
  lemma SplitGenericsParts(name: string)
    ensures var r := SplitGenerics(name);
      '<' !in name ==> r == (name, "")
    ensures var r := SplitGenerics(name);
      '<' in name ==> '<' !in r.0 && name == r.0 + "<" + r.1
  {
    match FindChar(name, '<')
    case None =>
    case Some(k) =>
      assert name == name[..k] + "<" + name[k + 1..];
  }

  /** `s.trim_end_matches(c)`: the longest prefix of `s` that does not end with `c`. */
  function TrimEndMatches(s: string, c: char): (r: string)
    ensures |r| <= |s| && r == s[..|r|]
    ensures |r| == 0 || r[|r| - 1] != c
    ensures forall i | |r| <= i < |s| :: s[i] == c
  {
    if |s| > 0 && s[|s| - 1] == c then TrimEndMatches(s[..|s| - 1], c) else s
  }

  /** The pieces joined with `sep` between consecutive ones; the partner of `Split`. */
  function Join(pieces: seq<string>, sep: char): string {
    if |pieces| == 0 then ""
    else if |pieces| == 1 then pieces[0]
    else pieces[0] + [sep] + Join(pieces[1..], sep)
  }

  /**
    `s.split(sep)`: the maximal `sep`-free pieces of `s`, in order. An empty
    string splits into one empty piece.
  */
  function Split(s: string, sep: char): (pieces: seq<string>)
    ensures |pieces| >= 1
    ensures forall k | 0 <= k < |pieces| :: sep !in pieces[k]
    ensures Join(pieces, sep) == s
    decreases |s|
  {
    match FindChar(s, sep)
    case None => [s]
    case Some(i) =>
      var rest := Split(s[i + 1..], sep);
      assert s == s[..i] + [sep] + s[i + 1..];
      [s[..i]] + rest
  }

  /** Splitting a join of `sep`-free pieces gives back those pieces. */
  lemma {:induction false} SplitJoin(pieces: seq<string>, sep: char)
    requires |pieces| >= 1
    requires forall k | 0 <= k < |pieces| :: sep !in pieces[k]
    ensures Split(Join(pieces, sep), sep) == pieces
    decreases |pieces|
  {
    var s := Join(pieces, sep);
    if |pieces| == 1 {
      assert FindChar(s, sep).None?;
    } else {
      var p := pieces[0];
      var tail := Join(pieces[1..], sep);
      assert s == p + [sep] + tail;
      assert s[|p|] == sep && s[..|p|] == p;
      FindCharAt(p, sep, tail);
      assert s[|p| + 1..] == tail;
      SplitJoin(pieces[1..], sep);
      assert pieces == [p] + pieces[1..];
    }
  }

  /**
    The identifier `ident` after the loop of `strict_name` has pushed, for
    every argument in order, '_' followed by its unqualified identifier.
  */
  function PushArgs(ident: string, args: seq<string>): string {
    if args == [] then ident
    else PushArgs(ident, args[..|args| - 1]) + "_" + GetIdent(args[|args| - 1])
  }

  /** Pushing two argument lists one after the other is pushing their concatenation. */
  lemma {:induction false} PushArgsConcat(ident: string, a: seq<string>, b: seq<string>)
    ensures PushArgs(PushArgs(ident, a), b) == PushArgs(ident, a + b)
    decreases |b|
  {
    if b == [] {
      assert a + b == a;
    } else {
      var b' := b[..|b| - 1];
      assert (a + b)[..|a + b| - 1] == a + b';
      PushArgsConcat(ident, a, b');
    }
  }

  /** What is pushed does not depend on the identifier it is pushed onto. */
  lemma {:induction false} PushArgsPrefix(ident: string, args: seq<string>)
    ensures PushArgs(ident, args) == ident + PushArgs("", args)
    decreases |args|
  {
    if args != [] {
      PushArgsPrefix(ident, args[..|args| - 1]);
    }
  }

  /** One more argument pushes '_' and its identifier. */
  lemma PushArgsStep(ident: string, args: seq<string>, i: nat)
    requires i < |args|
    ensures PushArgs(ident, args[..i + 1]) == PushArgs(ident, args[..i]) + "_" + GetIdent(args[i])
  {
    assert args[..i + 1] == args[..i] + [args[i]];
    PushArgsConcat(ident, args[..i], [args[i]]);
    assert [args[i]][..0] == [];
  }

  /** The canonical name that `strict_name` derives from `typeName`. */
  function CanonicalName(typeName: string): string {
    var parts := SplitGenerics(typeName);
    PushArgs(GetIdent(parts.0), Split(TrimEndMatches(parts.1, '>'), ','))
  }

  /**
    `StrictType::strict_name`: builds the identifier in a mutable string, one
    generic argument at a time. It never returns `None`.
  */
  method StrictName(typeName: string) returns (name: Option<string>)
    ensures name == Some(CanonicalName(typeName))
  {
    var parts := SplitGenerics(typeName);
    var base := parts.0;
    var generics := TrimEndMatches(parts.1, '>');
    var ident := GetIdent(base);
    var args := Split(generics, ',');
    for i := 0 to |args|
      invariant ident == PushArgs(GetIdent(base), args[..i])
    {
      PushArgsStep(GetIdent(base), args, i);
      ident := ident + "_" + GetIdent(args[i]);
    }
    assert args[..|args|] == args;
    return Some(ident);
  }

  /**
    A type path without '<' keeps its unqualified identifier and gets exactly
    one '_' appended: splitting the empty generic tail yields one empty piece.
  */
  lemma NonGenericName(typeName: string)
    requires '<' !in typeName
    ensures CanonicalName(typeName) == GetIdent(typeName) + "_"
  {
    SplitGenericsParts(typeName);
    assert TrimEndMatches("", '>') == "";
    assert FindChar("", ',') == None;
    assert Split("", ',') == [""];
    assert RFindSep("") == None;
    assert PushArgs(GetIdent(typeName), [""]) == PushArgs(GetIdent(typeName), []) + "_" + GetIdent("");
  }

  /**
    A generic instantiation `base<a1,a2,...>` is named by the unqualified base
    followed by '_' and the unqualified identifier of each argument, in order.
  */
  lemma GenericName(base: string, args: seq<string>)
    requires '<' !in base
    requires |args| >= 1
    requires forall k | 0 <= k < |args| :: ',' !in args[k]
    requires var last := args[|args| - 1]; |last| == 0 || last[|last| - 1] != '>'
    ensures CanonicalName(base + "<" + Join(args, ',') + ">") == PushArgs(GetIdent(base), args)
  {
    var tail := Join(args, ',');
    var name := base + "<" + tail + ">";
    assert name[|base|] == '<';
    var (b, g) := SplitGenerics(name);
    FirstLtAfterBase(base, tail + ">");
    assert name == base + "<" + (tail + ">");
    assert b == base && g == tail + ">";
    JoinLast(args, ',');
    TrimOneGt(tail);
    SplitJoin(args, ',');
  }

  /** With no '<' in `base`, the first '<' of `base + "<" + rest` is the one after `base`. */
  lemma FirstLtAfterBase(base: string, rest: string)
    requires '<' !in base
    ensures SplitGenerics(base + "<" + rest) == (base, rest)
  {
    var name := base + "<" + rest;
    FindCharAt(base, '<', rest);
    assert name[..|base|] == base && name[|base| + 1..] == rest;
  }

  /** A join ends with the end of its last piece, or with the separator when that piece is empty. */
  lemma {:induction false} JoinLast(pieces: seq<string>, sep: char)
    requires |pieces| >= 1
    ensures var s := Join(pieces, sep); var last := pieces[|pieces| - 1];
      |last| > 0 ==> |s| > 0 && s[|s| - 1] == last[|last| - 1]
    ensures var s := Join(pieces, sep); var last := pieces[|pieces| - 1];
      |last| == 0 && |pieces| > 1 ==> |s| > 0 && s[|s| - 1] == sep
    ensures var last := pieces[|pieces| - 1]; |last| == 0 && |pieces| == 1 ==> Join(pieces, sep) == ""
    decreases |pieces|
  {
    if |pieces| > 1 {
      JoinLast(pieces[1..], sep);
    }
  }

  /** Trimming the '>' characters off `s + ">"` gives back `s` when `s` does not end with '>'. */
  lemma TrimOneGt(s: string)
    requires |s| == 0 || s[|s| - 1] != '>'
    ensures TrimEndMatches(s + ">", '>') == s
  {
    assert (s + ">")[..|s|] == s;
  }

  /** Trimming the '>' characters off `s + ">>"` gives back `s` when `s` does not end with '>'. */
  lemma TrimTwoGt(s: string)
    requires |s| == 0 || s[|s| - 1] != '>'
    ensures TrimEndMatches(s + ">>", '>') == s
  {
    assert (s + ">>")[..|s| + 1] == s + ">";
    TrimOneGt(s);
  }

  /**
    A nested generic as the only argument, `base<inner<arg>>`: trimming every
    trailing '>' also removes the inner list's closing '>', so the argument's
    identifier keeps its unbalanced '<' (`a::Foo<b::Bar<u8>>` is named
    `Foo_Bar<u8`).
  */
  lemma NestedGenericName(base: string, inner: string, arg: string)
    requires '<' !in base
    requires ',' !in inner && ',' !in arg
    requires |arg| == 0 || arg[|arg| - 1] != '>'
    ensures CanonicalName(base + "<" + (inner + "<" + arg) + ">>")
      == GetIdent(base) + "_" + GetIdent(inner + "<" + arg)
  {
    var t := inner + "<" + arg;
    assert ',' !in t by {
      forall k | 0 <= k < |t| ensures t[k] != ',' {
        if k < |inner| { assert t[k] == inner[k]; }
        else if k > |inner| { assert t[k] == arg[k - |inner| - 1]; }
      }
    }
    assert |t| > 0 && t[|t| - 1] != '>' by {
      if |arg| > 0 { assert t[|t| - 1] == arg[|arg| - 1]; }
    }
    var name := base + "<" + t + ">>";
    FirstLtAfterBase(base, t + ">>");
    assert name == base + "<" + (t + ">>");
    TrimTwoGt(t);
    SplitJoin([t], ',');
    assert Join([t], ',') == t;
    assert PushArgs(GetIdent(base), [t]) == PushArgs(GetIdent(base), []) + "_" + GetIdent(t);
  }
}
