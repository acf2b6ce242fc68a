/** The java.lang.String operations the server relies on, with Java's own
  * semantics: `indexOf`, `split` (limit 0, so trailing empty strings are
  * dropped), `trim`, `startsWith`, `toLowerCase`, `equalsIgnoreCase` and
  * `replace`. Strings are sequences of Unicode scalar values; case mapping
  * covers the ASCII letters only. */
module JavaStrings {

  /** `d` occurs in `s` starting at index `i`. */
  predicate OccursAt(s: string, d: string, i: nat)
  {
    i + |d| <= |s| && s[i..i + |d|] == d
  }

  /** `s.indexOf(d, i)`: the index of the leftmost occurrence of `d` at or
    * after `i`, or -1. */
  function IndexFrom(s: string, d: string, i: nat): (r: int)
    requires i <= |s|
    ensures r == -1 || i <= r <= |s|
    ensures r >= 0 ==> OccursAt(s, d, r)
    ensures r >= 0 ==> forall j :: i <= j < r ==> !OccursAt(s, d, j)
    ensures r < 0 ==> forall j :: i <= j <= |s| ==> !OccursAt(s, d, j)
    decreases |s| - i
  {
    if i + |d| > |s| then -1
    else if s[i..i + |d|] == d then i
    else IndexFrom(s, d, i + 1)
  }

  /** `s.indexOf(d)`: the index of the leftmost occurrence of `d`, or -1. */
  function IndexOf(s: string, d: string): (r: int)
    ensures -1 <= r <= |s|
    ensures r >= 0 ==> OccursAt(s, d, r)
    ensures r >= 0 ==> forall j :: 0 <= j < r ==> !OccursAt(s, d, j)
    ensures r < 0 ==> forall j :: 0 <= j <= |s| ==> !OccursAt(s, d, j)
  {
    IndexFrom(s, d, 0)
  }

  /** For a single character, an occurrence is just an equal element. */
  lemma OccursAtChar(s: string, c: char, i: nat)
    ensures OccursAt(s, [c], i) <==> i < |s| && s[i] == c
  {
    if i < |s| {
      assert s[i..i + 1] == [s[i]];
    }
  }

  /** `indexOf(c)` finds the first `c`; -1 exactly when `c` is absent. */
  lemma IndexOfChar(s: string, c: char)
    ensures IndexOf(s, [c]) < 0 <==> c !in s
    ensures IndexOf(s, [c]) >= 0 ==> IndexOf(s, [c]) < |s| && s[IndexOf(s, [c])] == c && c !in s[..IndexOf(s, [c])]
  {
    var r := IndexOf(s, [c]);
    forall i | 0 <= i <= |s| ensures OccursAt(s, [c], i) <==> i < |s| && s[i] == c {
      OccursAtChar(s, c, i);
    }
    if r >= 0 {
      forall j | 0 <= j < r ensures s[..r][j] != c {
        assert !OccursAt(s, [c], j);
      }
    } else {
      forall j | 0 <= j < |s| ensures s[j] != c {
        assert !OccursAt(s, [c], j);
      }
    }
  }

  /** When the first character of `d` is absent from `l`, the first occurrence
    * of `d` in `l + d + rest` is the one right after `l`. */
  lemma IndexOfAfterClean(l: string, d: string, rest: string)
    requires d != [] && d[0] !in l
    ensures IndexOf(l + d + rest, d) == |l|
  {
    var s := l + d + rest;
    assert s[|l|..|l| + |d|] == d;
    assert OccursAt(s, d, |l|);
  }

  /** `s.substring(0, i)` and `s.substring(i + 1)` around the first `c`, or the
    * whole of `s` and "" when `c` is absent. Models both `indexOf(c)` followed
    * by two `substring`s and `split(c, 2)`. */
  function SplitAtFirst(s: string, c: char): (r: (string, string))
    ensures c !in r.0
    ensures c in s ==> s == r.0 + [c] + r.1
    ensures c !in s ==> r == (s, "")
  {
    IndexOfChar(s, c);
    var i := IndexOf(s, [c]);
    if i < 0 then (s, "") else
      assert s == s[..i] + [c] + s[i + 1..];
      (s[..i], s[i + 1..])
  }

  /** The elements of `ps` separated by `d`. */
  function Join(ps: seq<string>, d: string): string
  {
    if ps == [] then ""
    else if |ps| == 1 then ps[0]
    else ps[0] + d + Join(ps[1..], d)
  }

  /** Every piece between occurrences of `d`, empty ones included. */
  function Pieces(s: string, d: string): (r: seq<string>)
    requires d != []
    ensures r != []
    ensures Join(r, d) == s
    decreases |s|
  {
    var i := IndexOf(s, d);
    if i < 0 then [s]
    else
      var tail := Pieces(s[i + |d|..], d);
      assert s == s[..i] + d + s[i + |d|..];
      [s[..i]] + tail
  }

  /** A list with its trailing empty strings removed. */
  function DropTrailingEmpty(ps: seq<string>): (r: seq<string>)
    ensures |r| <= |ps| && r == ps[..|r|]
    ensures r == [] || r[|r| - 1] != ""
    ensures forall k :: |r| <= k < |ps| ==> ps[k] == ""
  {
    if ps != [] && ps[|ps| - 1] == "" then DropTrailingEmpty(ps[..|ps| - 1]) else ps
  }

  /** `s.split(d)` for a delimiter without regular-expression metacharacters:
    * with no occurrence the result is `{s}` (so "" splits to `{""}`),
    * otherwise the pieces with the trailing empty ones dropped. */
  function Split(s: string, d: string): (r: seq<string>)
    requires d != []
  {
    if IndexOf(s, d) < 0 then [s] else DropTrailingEmpty(Pieces(s, d))
  }

  /** The text before the first `c`, or all of `s`. */
  function Before(s: string, c: char): (r: string)
    ensures c !in r
    ensures c in s ==> r + [c] <= s
    ensures c !in s ==> r == s
  {
    SplitAtFirst(s, c).0
  }

  lemma JoinOfEmpties(ps: seq<string>, c: char)
    requires forall k :: 0 <= k < |ps| ==> ps[k] == ""
    ensures forall i :: 0 <= i < |Join(ps, [c])| ==> Join(ps, [c])[i] == c
  {
    if |ps| > 1 {
      JoinOfEmpties(ps[1..], c);
      assert Join(ps, [c]) == [c] + Join(ps[1..], [c]);
    }
  }

  /** The first element of `s.split(c)` is the text before the first `c`,
    * unless `s` is non-empty and made of `c` only. */
  lemma SplitFirst(s: string, c: char)
    requires s == [] || exists i :: 0 <= i < |s| && s[i] != c
    ensures Split(s, [c]) != [] && Split(s, [c])[0] == Before(s, c)
  {
    IndexOfChar(s, c);
    var i := IndexOf(s, [c]);
    if i >= 0 {
      var w :| 0 <= w < |s| && s[w] != c;
      var ps := Pieces(s, [c]);
      assert ps[0] == s[..i];
      var r := DropTrailingEmpty(ps);
      if r == [] {
        JoinOfEmpties(ps, c);
        assert false;
      }
      assert Split(s, [c]) == r;
      assert r[0] == ps[0];
      assert Before(s, c) == s[..i];
    }
  }

  lemma PiecesOfDelimiters(s: string, c: char)
    requires forall i :: 0 <= i < |s| ==> s[i] == c
    ensures forall k :: 0 <= k < |Pieces(s, [c])| ==> Pieces(s, [c])[k] == ""
    decreases |s|
  {
    IndexOfChar(s, c);
    if s != [] {
      PiecesOfDelimiters(s[1..], c);
    }
  }

  /** A non-empty string made only of the delimiter splits to nothing, so
    * indexing the result with `[0]` throws. */
  lemma SplitOnlyDelimiters(s: string, c: char)
    requires s != [] && forall i :: 0 <= i < |s| ==> s[i] == c
    ensures Split(s, [c]) == []
  {
    IndexOfChar(s, c);
    PiecesOfDelimiters(s, c);
  }

  /** Every element of `ls`, each followed by `t` (a `StringBuilder` that
    * appends a line and then a terminator). */
  function Terminated(ls: seq<string>, t: string): string
  {
    if ls == [] then "" else ls[0] + t + Terminated(ls[1..], t)
  }

  lemma PiecesCons(l: string, d: string, rest: string)
    requires d != [] && d[0] !in l
    ensures Pieces(l + d + rest, d) == [l] + Pieces(rest, d)
  {
    var s := l + d + rest;
    IndexOfAfterClean(l, d, rest);
    assert s[|l| + |d|..] == rest;
    assert s[..|l|] == l;
  }

  lemma {:induction false} PiecesOfTerminated(ls: seq<string>, d: string)
    requires d != []
    requires forall k :: 0 <= k < |ls| ==> d[0] !in ls[k]
    ensures Pieces(Terminated(ls, d), d) == ls + [""]
  {
    if ls == [] {
      PiecesOfEmpty(d);
    } else {
      PiecesOfTerminatedCons(ls, d);
      PiecesOfTerminated(ls[1..], d);
      assert [ls[0]] + (ls[1..] + [""]) == ls + [""];
    }
  }

  lemma PiecesOfEmpty(d: string)
    requires d != []
    ensures Pieces("", d) == [""]
  {
    assert IndexOf("", d) < 0;
  }

  lemma PiecesOfTerminatedCons(ls: seq<string>, d: string)
    requires d != [] && ls != [] && d[0] !in ls[0]
    ensures Pieces(Terminated(ls, d), d) == [ls[0]] + Pieces(Terminated(ls[1..], d), d)
  {
    PiecesCons(ls[0], d, Terminated(ls[1..], d));
  }

  /** Splitting a block of non-empty terminated lines on the terminator gives
    * the lines back; an empty block gives `{""}`. */
  lemma SplitTerminated(ls: seq<string>, d: string)
    requires d != []
    requires forall k :: 0 <= k < |ls| ==> ls[k] != "" && d[0] !in ls[k]
    ensures Split(Terminated(ls, d), d) == if ls == [] then [""] else ls
  {
    PiecesOfTerminated(ls, d);
    if ls != [] {
      IndexOfAfterClean(ls[0], d, Terminated(ls[1..], d));
      var ps := ls + [""];
      assert ps[..|ps| - 1] == ls;
      assert DropTrailingEmpty(ps) == DropTrailingEmpty(ls);
      assert ls[|ls| - 1] != "";
      assert DropTrailingEmpty(ls) == ls;
    } else {
      assert IndexOf("", d) < 0;
    }
  }

  /** `String.trim` removes every leading and trailing char whose code is at
    * most U+0020 (spaces, tabs, line breaks and the other control chars). */
  predicate IsTrimmable(c: char)
  {
    c <= ' '
  }

  /** The index of the first char that is not trimmable (the first loop of
    * `trim`). */
  function TrimStartIndex(s: string): (k: nat)
    ensures k <= |s|
    ensures forall i :: 0 <= i < k ==> IsTrimmable(s[i])
    ensures k < |s| ==> !IsTrimmable(s[k])
  {
    if s != [] && IsTrimmable(s[0]) then 1 + TrimStartIndex(s[1..]) else 0
  }

  /** The end of the kept part (the second loop of `trim`): the length with
    * every trailing trimmable char after index `k` dropped. */
  function TrimEndIndex(s: string, k: nat): (j: nat)
    requires k <= |s|
    ensures k <= j <= |s|
    ensures forall i :: j <= i < |s| ==> IsTrimmable(s[i])
    ensures j > k ==> !IsTrimmable(s[j - 1])
  {
    if |s| > k && IsTrimmable(s[|s| - 1]) then TrimEndIndex(s[..|s| - 1], k) else |s|
  }

  /** `s.trim()`: the slice of `s` between its leading and its trailing
    * trimmable chars. */
  function Trim(s: string): (r: string)
    ensures r == [] || (!IsTrimmable(r[0]) && !IsTrimmable(r[|r| - 1]))
    ensures var k := TrimStartIndex(s);
      && k + |r| <= |s| && r == s[k..k + |r|]
      && (forall i :: 0 <= i < k ==> IsTrimmable(s[i]))
      && (forall i :: k + |r| <= i < |s| ==> IsTrimmable(s[i]))
  {
    var k := TrimStartIndex(s);
    s[k..TrimEndIndex(s, k)]
  }

  /** One leading trimmable char before a string with untrimmable ends is
    * removed. */
  lemma TrimLeading(c: char, s: string)
    requires IsTrimmable(c)
    requires s != [] && !IsTrimmable(s[0]) && !IsTrimmable(s[|s| - 1])
    ensures Trim([c] + s) == s
  {
    var t := [c] + s;
    assert t[1..] == s;
    assert TrimStartIndex(s) == 0;
    assert TrimStartIndex(t) == 1;
    assert t[|t| - 1] == s[|s| - 1];
    assert TrimEndIndex(t, 1) == |t|;
  }

  /** Trailing trimmable chars after an untrimmable end are all removed. */
  lemma TrimTrailing(s: string, ws: string)
    requires s != [] && !IsTrimmable(s[0]) && !IsTrimmable(s[|s| - 1])
    requires forall i :: 0 <= i < |ws| ==> IsTrimmable(ws[i])
    ensures Trim(s + ws) == s
  {
    var t := s + ws;
    assert TrimStartIndex(t) == 0;
    assert t[|s| - 1] == s[|s| - 1];
    assert forall i :: |s| <= i < |t| ==> t[i] == ws[i - |s|];
    var r := Trim(t);
    assert |r| == |s|;
    assert r == t[..|s|] == s;
  }

  predicate IsAsciiUpper(c: char)
  {
    'A' <= c <= 'Z'
  }

  function ToLowerChar(c: char): char
  {
    if IsAsciiUpper(c) then (c as int + 32) as char else c
  }

  /** `toLowerCase` on ASCII letters: same length, no upper-case ASCII letter
    * left, and every other char kept. */
  function ToLower(s: string): (r: string)
    ensures |r| == |s|
    ensures forall i :: 0 <= i < |r| ==> !IsAsciiUpper(r[i])
    ensures forall i :: 0 <= i < |s| && !IsAsciiUpper(s[i]) ==> r[i] == s[i]
    ensures forall i :: 0 <= i < |s| && IsAsciiUpper(s[i]) ==> r[i] as int == s[i] as int + 32
  {
    seq(|s|, i requires 0 <= i < |s| => ToLowerChar(s[i]))
  }

  /** Lower-casing distributes over concatenation. */
  lemma ToLowerAppend(a: string, b: string)
    ensures ToLower(a + b) == ToLower(a) + ToLower(b)
  {
    assert forall i :: 0 <= i < |a| + |b| ==> (a + b)[i] == if i < |a| then a[i] else b[i - |a|];
  }

  predicate StartsWith(s: string, prefix: string)
  {
    prefix <= s
  }

  /** `a.equalsIgnoreCase(b)` on ASCII letters. */
  predicate EqualsIgnoreCase(a: string, b: string)
  {
    ToLower(a) == ToLower(b)
  }

  /** A string without upper-case ASCII letters equals another ignoring case
    * exactly when it equals the other's lower-case form. */
  lemma EqualsIgnoreCaseLower(a: string, b: string)
    requires forall i :: 0 <= i < |a| ==> !IsAsciiUpper(a[i])
    ensures EqualsIgnoreCase(a, b) <==> a == ToLower(b)
  {
    assert ToLower(a) == a;
  }

  /** `s.replace(String.valueOf(c), rep)`: every `c` replaced by `rep`. */
  function ReplaceAll(s: string, c: char, rep: string): (r: string)
    ensures c !in rep ==> c !in r
    ensures forall x :: x in r ==> x in s || x in rep
  {
    if s == [] then ""
    else (if s[0] == c then rep else [s[0]]) + ReplaceAll(s[1..], c, rep)
  }

  /** Replacing distributes over concatenation. */
  lemma {:induction false} ReplaceAllAppend(a: string, b: string, c: char, rep: string)
    ensures ReplaceAll(a + b, c, rep) == ReplaceAll(a, c, rep) + ReplaceAll(b, c, rep)
  {
    if a != [] {
      assert (a + b)[1..] == a[1..] + b;
      ReplaceAllAppend(a[1..], b, c, rep);
    } else {
      assert a + b == b;
    }
  }

  /** A property holds on every element exactly when it holds on all but the
    * last and on the last. */
  lemma AllSnoc(hs: seq<string>, p: string -> bool)
    requires hs != []
    ensures var init := hs[..|hs| - 1];
      (forall j :: 0 <= j < |hs| ==> p(hs[j]))
        <==> (forall j :: 0 <= j < |init| ==> p(init[j])) && p(hs[|hs| - 1])
  {
    var init := hs[..|hs| - 1];
    assert forall j :: 0 <= j < |init| ==> init[j] == hs[j];
  }

  /** A property holds on some element exactly when it holds on one of all but
    * the last or on the last. */
  lemma ExistsSnoc(hs: seq<string>, p: string -> bool)
    requires hs != []
    ensures var init := hs[..|hs| - 1];
      (exists j :: 0 <= j < |hs| && p(hs[j]))
        <==> (exists j :: 0 <= j < |init| && p(init[j])) || p(hs[|hs| - 1])
  {
    var init := hs[..|hs| - 1];
    assert forall j :: 0 <= j < |init| ==> init[j] == hs[j];
    if exists j :: 0 <= j < |hs| && p(hs[j]) {
      var j :| 0 <= j < |hs| && p(hs[j]);
      if j < |init| {
        assert p(init[j]);
      }
    }
  }

  /** A property holds on every element after index `i` exactly when it holds
    * on those of all but the last and on the last. */
  lemma AllAfterSnoc(hs: seq<string>, i: nat, p: string -> bool)
    requires i < |hs| - 1
    ensures var init := hs[..|hs| - 1];
      (forall j :: i < j < |hs| ==> p(hs[j]))
        <==> (forall j :: i < j < |init| ==> p(init[j])) && p(hs[|hs| - 1])
  {
    var init := hs[..|hs| - 1];
    assert forall j :: 0 <= j < |init| ==> init[j] == hs[j];
  }
}
