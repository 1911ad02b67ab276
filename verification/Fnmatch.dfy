/** rl_fnmatch of libretro-common/compat/compat_fnmatch.c against the language of its patterns. */
module Fnmatch {
  import opened Wrappers

  const FNM_NOMATCH: int := 1

  datatype Item = Star | Any | List(chars: string) | Literal(c: char)

  // -------------------------------------------------------------------------
  // Patterns

  /** Position of the first `]`, or the length of the string. */
  function Bracket(p: string): (n: nat)
    ensures n <= |p|
    ensures n < |p| ==> p[n] == ']'
    ensures ']' !in p[..n]
  {
    if p == [] || p[0] == ']' then 0 else Bracket(p[1..]) + 1
  }

  /** The items of a pattern; an unclosed list and a dangling backslash are malformed. */
  function Items(p: string): Option<seq<Item>> {
    if p == [] then Some([])
    else if p[0] == '*' then Before(Star, Items(p[1..]))
    else if p[0] == '?' then Before(Any, Items(p[1..]))
    else if p[0] == '[' then
      var n := Bracket(p[1..]);
      if n == |p[1..]| then None else Before(List(p[1..][..n]), Items(p[1..][n + 1..]))
    else if p[0] == '\\' then
      if |p| == 1 then None else Before(Literal(p[1]), Items(p[2..]))
    else Before(Literal(p[0]), Items(p[1..]))
  }

  function Before(item: Item, items: Option<seq<Item>>): Option<seq<Item>> {
    if items.None? then None else Some([item] + items.value)
  }

  // -------------------------------------------------------------------------
  // Languages

  /** The strings one item stands for. */
  predicate Stands(item: Item, s: string) {
    match item
    case Star => true
    case Any => |s| == 1
    case List(chars) => |s| == 1 && s[0] in chars
    case Literal(c) => s == [c]
  }

  function Joined(parts: seq<string>): string {
    if parts == [] then [] else parts[0] + Joined(parts[1..])
  }

  ghost predicate Cut(items: seq<Item>, parts: seq<string>, s: string) {
    |parts| == |items| && Joined(parts) == s && forall i :: 0 <= i < |items| ==> Stands(items[i], parts[i])
  }

  /** The language of a pattern: strings that can be cut into parts its items stand for; nothing if it is malformed. */
  ghost predicate InLanguage(p: string, s: string) {
    Items(p).Some? && exists parts :: Cut(Items(p).value, parts, s)
  }

  /** The same, one item at a time. */
  ghost predicate Matches(items: seq<Item>, s: string)
    decreases |items|
  {
    if items == [] then s == []
    else exists k :: 0 <= k <= |s| && Stands(items[0], s[..k]) && Matches(items[1..], s[k..])
  }

  lemma {:induction false} MatchesIsCut(items: seq<Item>, s: string)
    ensures Matches(items, s) <==> exists parts :: Cut(items, parts, s)
    decreases |items|
  {
    if items == [] {
      if s == [] {
        assert Cut(items, [], s);
      }
    } else {
      if Matches(items, s) {
        var k :| 0 <= k <= |s| && Stands(items[0], s[..k]) && Matches(items[1..], s[k..]);
        MatchesIsCut(items[1..], s[k..]);
        var parts :| Cut(items[1..], parts, s[k..]);
        CutBefore(items, [s[..k]] + parts, s, s[..k], parts, s[k..]);
      }
      if parts :| Cut(items, parts, s) {
        CutAfter(items, parts, s);
        MatchesIsCut(items[1..], s[|parts[0]|..]);
        assert s[..|parts[0]|] == parts[0];
      }
    }
  }

  lemma CutBefore(items: seq<Item>, all: seq<string>, s: string, part: string, parts: seq<string>, rest: string)
    requires items != [] && Stands(items[0], part) && Cut(items[1..], parts, rest)
    requires all == [part] + parts && s == part + rest
    ensures Cut(items, all, s)
  {
    assert all[1..] == parts;
    forall i | 0 <= i < |items|
      ensures Stands(items[i], all[i])
    {
      if i > 0 {
        assert items[i] == items[1..][i - 1] && all[i] == parts[i - 1];
      }
    }
  }

  lemma CutAfter(items: seq<Item>, parts: seq<string>, s: string)
    requires items != [] && Cut(items, parts, s)
    ensures |parts[0]| <= |s| && s[..|parts[0]|] == parts[0] && Stands(items[0], parts[0])
    ensures Cut(items[1..], parts[1..], s[|parts[0]|..])
  {
    forall i | 0 <= i < |items[1..]|
      ensures Stands(items[1..][i], parts[1..][i])
    {
      assert items[1..][i] == items[i + 1] && parts[1..][i] == parts[i + 1];
    }
  }

  // -------------------------------------------------------------------------
  // One step of the matcher

  /** The language, one item at a time. */
  ghost predicate Accepts(p: string, s: string) {
    Items(p).Some? && Matches(Items(p).value, s)
  }

  lemma AcceptsIsInLanguage(p: string, s: string)
    ensures Accepts(p, s) <==> InLanguage(p, s)
  {
    if Items(p).Some? {
      MatchesIsCut(Items(p).value, s);
    }
  }

  /** An item that takes exactly one character. */
  lemma SingleStep(item: Item, items: seq<Item>, s: string)
    requires item != Star
    ensures Matches([item] + items, s) <==> s != [] && Stands(item, s[..1]) && Matches(items, s[1..])
  {
    assert ([item] + items)[1..] == items;
    if Matches([item] + items, s) {
      var k :| 0 <= k <= |s| && Stands(item, s[..k]) && Matches(items, s[k..]);
      assert k == 1;
    }
  }

  lemma StarStep(items: seq<Item>, s: string)
    ensures Matches([Star] + items, s) <==> Matches(items, s) || (s != [] && Matches([Star] + items, s[1..]))
  {
    var all := [Star] + items;
    assert all[1..] == items && s[0..] == s;
    if Matches(all, s) {
      var k :| 0 <= k <= |s| && Stands(Star, s[..k]) && Matches(items, s[k..]);
      if k > 0 {
        assert s[1..][k - 1..] == s[k..];
        assert Stands(Star, s[1..][..k - 1]);
      }
    }
    if Matches(items, s) {
      assert Stands(Star, s[..0]);
    }
    if s != [] && Matches(all, s[1..]) {
      var k :| 0 <= k <= |s[1..]| && Stands(Star, s[1..][..k]) && Matches(items, s[1..][k..]);
      assert s[1..][k..] == s[k + 1..];
      assert Stands(Star, s[..k + 1]);
    }
  }

  /** A lone star takes everything. */
  lemma StarAlone(s: string)
    ensures Matches([Star], s)
  {
    assert [Star][1..] == [];
    assert Stands(Star, s[..|s|]) && Matches([], s[|s|..]);
  }

  /** What a pattern starts with decides how it goes on. */
  lemma AcceptsStep(p: string, s: string)
    requires p != []
    ensures p[0] == '*' ==> (Accepts(p, s) <==> Accepts(p[1..], s) || (s != [] && Accepts(p, s[1..])))
    ensures p == "*" ==> Accepts(p, s)
    ensures p[0] == '?' ==> (Accepts(p, s) <==> s != [] && Accepts(p[1..], s[1..]))
    ensures p[0] == '[' ==> var n := Bracket(p[1..]);
      Accepts(p, s) <==> n < |p[1..]| && s != [] && s[0] in p[1..][..n] && Accepts(p[1..][n + 1..], s[1..])
    ensures p[0] == '\\' ==> (Accepts(p, s) <==> |p| > 1 && s != [] && s[0] == p[1] && Accepts(p[2..], s[1..]))
    ensures p[0] !in "*?[\\" ==> (Accepts(p, s) <==> s != [] && s[0] == p[0] && Accepts(p[1..], s[1..]))
  {
    if Items(p).Some? {
      var items := Items(p).value;
      var item, rest := items[0], items[1..];
      assert items == [item] + rest;
      if item == Star {
        StarStep(rest, s);
        StarAlone(s);
      } else {
        SingleStep(item, rest, s);
      }
    }
  }

  /** Without characters left, a pattern that goes on with something other than a star does not match. */
  lemma NothingLeft(p: string)
    requires p != [] && p[0] != '*'
    ensures !Accepts(p, [])
  {
    AcceptsStep(p, []);
  }

  // -------------------------------------------------------------------------
  // rl_fnmatch

  /** The list case: scans to the closing bracket, noting a match on the way; `rest` is the pattern behind it. */
  method MatchList(c0: string, first: char) returns (closed: bool, charmatch: bool, rest: string)
    ensures closed <==> Bracket(c0) < |c0|
    ensures closed ==> (charmatch <==> first in c0[..Bracket(c0)]) && rest == c0[Bracket(c0) + 1..]
  {
    var c := c0;
    charmatch := false;
    ghost var k := 0;
    while c == [] || c[0] != ']'
      invariant k <= |c0| && c == c0[k..] && Bracket(c0) == k + Bracket(c)
      invariant charmatch <==> first in c0[..k]
      decreases |c|
    {
      if c == [] {
        return false, charmatch, [];
      }
      if !charmatch {
        if c[0] == first {
          charmatch := true;
        }
      }
      assert c0[..k + 1] == c0[..k] + [c0[k]];
      c := c[1..];
      k := k + 1;
    }
    return true, charmatch, c[1..];
  }

  /** The pointers `c` and `string` of the code are the parts of both strings still ahead of them. */
  method RlFnmatch(pattern: string, string0: string) returns (rv: int)
    ensures rv == 0 || rv == 1
    ensures rv == 0 <==> InLanguage(pattern, string0)
    decreases |pattern|
  {
    AcceptsIsInLanguage(pattern, string0);
    var c, s := pattern, string0;
    while c != []
      invariant |c| <= |pattern| && (Accepts(pattern, string0) <==> Accepts(c, s))
      decreases |c|
    {
      AcceptsStep(c, s);
      if c[0] != '*' && s == [] {
        return FNM_NOMATCH;
      }
      if c[0] == '*' {
        rv := MatchRest(c, s);
        return;
      } else if c[0] == '[' {
        var closed, charmatch, rest := MatchList(c[1..], s[0]);
        if !closed || !charmatch {
          return FNM_NOMATCH;
        }
        c, s := rest, s[1..];
      } else if c[0] == '?' {
        c, s := c[1..], s[1..];
      } else {
        if c[0] == '\\' {
          c := c[1..];
          if c == [] {
            return FNM_NOMATCH;
          }
        }
        if c[0] != s[0] {
          return FNM_NOMATCH;
        }
        c, s := c[1..], s[1..];
      }
    }
    return if s == [] then 0 else FNM_NOMATCH;
  }

  /** The star case: skips further stars, then tries the remaining pattern on shorter and shorter strings. */
  method MatchRest(c0: string, s0: string) returns (rv: int)
    requires c0 != [] && c0[0] == '*'
    ensures rv == 0 || rv == 1
    ensures rv == 0 <==> Accepts(c0, s0)
    decreases |c0|, 0
  {
    var c := c0[1..];
    var s := s0;
    while c != [] && c[0] == '*'
      invariant |c| < |c0| && (Accepts(c0, s0) <==> Accepts(['*'] + c, s0))
      decreases |c|
    {
      StarsMerge(c, s0);
      c := c[1..];
    }
    assert (['*'] + c)[1..] == c;
    AcceptsStep(['*'] + c, s);
    if c == [] {
      return 0;
    }
    while true
      invariant Accepts(c0, s0) <==> Accepts(['*'] + c, s)
      decreases |s|
    {
      AcceptsStep(['*'] + c, s);
      NothingLeft(c);
      if s == [] {
        return FNM_NOMATCH;
      }
      rv := RlFnmatch(c, s);
      AcceptsIsInLanguage(c, s);
      if rv == 0 {
        return;
      }
      s := s[1..];
    }
  }

  /** Two stars in a row are one. */
  lemma StarsMerge(c: string, s: string)
    requires c != [] && c[0] == '*'
    ensures Accepts(['*'] + c, s) <==> Accepts(['*'] + c[1..], s)
  {
    assert (['*'] + c)[1..] == c && ['*'] + c[1..] == c;
    StarsAccept(['*'] + c, c, s);
  }

  lemma {:induction false} StarsAccept(stars: string, star: string, s: string)
    requires |stars| > 1 && stars[0] == '*' && stars[1..] == star && star[0] == '*'
    ensures Accepts(stars, s) <==> Accepts(star, s)
    decreases |s|
  {
    AcceptsStep(stars, s);
    AcceptsStep(star, s);
    if s != [] {
      StarsAccept(stars, star, s[1..]);
    }
  }
}
