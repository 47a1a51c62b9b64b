/**
 * The three Java string operations the roster update is built from:
 * `String.split("/")`, `String.trim()` and `String.join(" / ", list)`,
 * with Java's exact edge cases (trailing empty pieces dropped by `split`,
 * every leading and trailing code point up to U+0020 removed by `trim`).
 */
module JavaText {

  /** A character `String.trim` removes at either end: every code point up to and including U+0020. */
  predicate IsTrimSpace(c: char) {
    c <= ' '
  }

  predicate AllTrimSpace(s: string) {
    forall i :: 0 <= i < |s| ==> IsTrimSpace(s[i])
  }

  /** No leading and no trailing trim space. */
  predicate IsTrimmed(s: string) {
    s == [] || (!IsTrimSpace(s[0]) && !IsTrimSpace(s[|s| - 1]))
  }

  // ---------------------------------------------------------------- trim

  /** `s` without its leading trim spaces. */
  function TrimStart(s: string): string {
    if |s| > 0 && IsTrimSpace(s[0]) then TrimStart(s[1..]) else s
  }

  /** `s` without its trailing trim spaces. */
  function TrimEnd(s: string): string {
    if |s| > 0 && IsTrimSpace(s[|s| - 1]) then TrimEnd(s[..|s| - 1]) else s
  }

  /** TrimStart removes a run of trim spaces and keeps the suffix after it, which does not start with one. */
  lemma {:induction false} TrimStartShape(s: string)
    ensures var r := TrimStart(s);
            |r| <= |s| && r == s[|s| - |r|..] && AllTrimSpace(s[..|s| - |r|])
            && (r == [] || !IsTrimSpace(r[0]))
  {
    if |s| > 0 && IsTrimSpace(s[0]) {
      TrimStartShape(s[1..]);
      var r := TrimStart(s);
      assert s[..|s| - |r|] == [s[0]] + s[1..][..|s| - 1 - |r|];
    }
  }

  /** TrimEnd removes a run of trailing trim spaces and keeps the prefix before it, which does not end in one. */
  lemma {:induction false} TrimEndShape(s: string)
    ensures var r := TrimEnd(s);
            |r| <= |s| && r == s[..|r|] && AllTrimSpace(s[|r|..])
            && (r == [] || !IsTrimSpace(r[|r| - 1]))
  {
    if |s| > 0 && IsTrimSpace(s[|s| - 1]) {
      TrimEndShape(s[..|s| - 1]);
      var r := TrimEnd(s);
      assert s[|r|..] == s[..|s| - 1][|r|..] + [s[|s| - 1]];
    }
  }

  /** Java's `s.trim()`. */
  function Trim(s: string): (r: string)
    ensures IsTrimmed(r)
  {
    TrimStartShape(s);
    TrimEndShape(TrimStart(s));
    TrimEnd(TrimStart(s))
  }

  /** Trimming only removes characters, so it cannot introduce a '/'. */
  lemma {:induction false} TrimKeepsNoSlash(s: string)
    requires '/' !in s
    ensures '/' !in Trim(s)
  {
    TrimStartShape(s);
    var t := TrimStart(s);
    assert '/' !in t;
    TrimEndShape(t);
    assert '/' !in TrimEnd(t);
  }

  lemma {:induction false} TrimStartSkips(l: string, u: string)
    requires AllTrimSpace(l)
    ensures TrimStart(l + u) == TrimStart(u)
  {
    if l != [] {
      var s := l + u;
      assert s[0] == l[0] && IsTrimSpace(l[0]);
      assert s[1..] == l[1..] + u;
      assert TrimStart(s) == TrimStart(s[1..]);
      assert AllTrimSpace(l[1..]) by {
        forall i | 0 <= i < |l[1..]| ensures IsTrimSpace(l[1..][i]) {
          assert l[1..][i] == l[i + 1];
        }
      }
      TrimStartSkips(l[1..], u);
    } else {
      assert l + u == u;
    }
  }

  lemma {:induction false} TrimEndSkips(u: string, r: string)
    requires AllTrimSpace(r)
    ensures TrimEnd(u + r) == TrimEnd(u)
  {
    if r != [] {
      assert (u + r)[|u + r| - 1] == r[|r| - 1] && IsTrimSpace(r[|r| - 1]);
      assert (u + r)[..|u + r| - 1] == u + r[..|r| - 1];
      TrimEndSkips(u, r[..|r| - 1]);
    } else {
      assert u + r == u;
    }
  }

  /** Trimming removes exactly the padding around an already trimmed string. */
  lemma {:induction false} TrimPadded(l: string, t: string, r: string)
    requires AllTrimSpace(l) && AllTrimSpace(r) && IsTrimmed(t)
    ensures Trim(l + t + r) == t
  {
    assert l + t + r == l + (t + r);
    TrimStartSkips(l, t + r);
    if t == [] {
      assert t + r == r + [];
      TrimStartSkips(r, []);
      assert TrimStart(l + t + r) == [];
    } else {
      assert TrimStart(t + r) == t + r;
      TrimEndSkips(t, r);
    }
  }

  /** Java's `trim` returns an already trimmed string unchanged. */
  lemma {:induction false} TrimOfTrimmed(t: string)
    requires IsTrimmed(t)
    ensures Trim(t) == t
  {
    assert [] + t + [] == t;
    TrimPadded([], t, []);
  }

  // ---------------------------------------------------------------- split

  /** The index of the first '/' in `s`. */
  function SlashIndex(s: string): (k: nat)
    requires '/' in s
    ensures k < |s| && s[k] == '/' && '/' !in s[..k]
  {
    if s[0] == '/' then 0
    else
      var k := 1 + SlashIndex(s[1..]);
      assert s[..k] == [s[0]] + s[1..][..k - 1];
      k
  }

  /**
   * The pieces of `s` between consecutive '/' characters, including the one
   * before the first and the one after the last: one more than there are '/'.
   */
  function Pieces(s: string): (ps: seq<string>)
    ensures |ps| >= 1
    decreases |s|
  {
    if '/' !in s then [s]
    else
      var k := SlashIndex(s);
      [s[..k]] + Pieces(s[k + 1..])
  }

  /** No piece contains '/'. */
  lemma {:induction false} PiecesNoSlash(s: string)
    ensures forall i :: 0 <= i < |Pieces(s)| ==> '/' !in Pieces(s)[i]
    decreases |s|
  {
    if '/' in s {
      var k := SlashIndex(s);
      PiecesNoSlash(s[k + 1..]);
      assert Pieces(s) == [s[..k]] + Pieces(s[k + 1..]);
    }
  }

  /** `ps` without its run of trailing empty strings. */
  function DropTrailingEmpty(ps: seq<string>): (r: seq<string>)
    ensures |r| <= |ps| && r == ps[..|r|]
    ensures r == [] || r[|r| - 1] != []
    ensures forall i :: |r| <= i < |ps| ==> ps[i] == []
  {
    if |ps| > 0 && ps[|ps| - 1] == [] then DropTrailingEmpty(ps[..|ps| - 1]) else ps
  }

  /**
   * Java's `s.split("/")`: a string without '/' is returned whole (so "" gives
   * one empty piece); otherwise the pieces between the '/' characters with the
   * trailing empty ones dropped (so "/" gives none).
   */
  function Split(s: string): (r: seq<string>)
    ensures '/' !in s ==> r == [s]
  {
    if '/' !in s then [s] else DropTrailingEmpty(Pieces(s))
  }

  /** No entry of `split("/")` contains '/'. */
  lemma {:induction false} SplitNoSlash(s: string)
    ensures forall i :: 0 <= i < |Split(s)| ==> '/' !in Split(s)[i]
  {
    PiecesNoSlash(s);
  }

  // ---------------------------------------------------------------- join

  /** `t` is a suffix of `s`. */
  predicate EndsWith(s: string, t: string) {
    |t| <= |s| && s[|s| - |t|..] == t
  }

  /** Java's `String.join(sep, ps)`. */
  function Join(sep: string, ps: seq<string>): (r: string)
  {
    if |ps| == 0 then ""
    else if |ps| == 1 then ps[0]
    else ps[0] + sep + Join(sep, ps[1..])
  }

  /** A join ends with the last element. */
  lemma {:induction false} JoinEndsWithLast(sep: string, ps: seq<string>)
    requires |ps| >= 1
    ensures EndsWith(Join(sep, ps), ps[|ps| - 1])
  {
    if |ps| >= 2 {
      JoinEndsWithLast(sep, ps[1..]);
      var r, t := Join(sep, ps[1..]), ps[|ps| - 1];
      assert Join(sep, ps) == (ps[0] + sep) + r;
      assert ((ps[0] + sep) + r)[|ps[0] + sep| + |r| - |t|..] == r[|r| - |t|..];
    }
  }

  // ---------------------------------------------------------------- split/join laws

  lemma {:induction false} PiecesAfterSlash(x: string, y: string)
    requires '/' !in x
    ensures Pieces(x + "/" + y) == [x] + Pieces(y)
  {
    var s := x + "/" + y;
    assert s[|x|] == '/';
    var k := SlashIndex(s);
    assert s[..|x|] == x;
    assert k == |x|;
    assert s[..k] == x;
    assert s[k + 1..] == y;
  }

  /** Splitting a '/'-joined list gives the list back. */
  lemma {:induction false} PiecesOfJoin(ps: seq<string>)
    requires |ps| >= 1
    requires forall i :: 0 <= i < |ps| ==> '/' !in ps[i]
    ensures Pieces(Join("/", ps)) == ps
  {
    if |ps| > 1 {
      PiecesAfterSlash(ps[0], Join("/", ps[1..]));
      PiecesOfJoin(ps[1..]);
      assert ps == [ps[0]] + ps[1..];
    }
  }

  /** Joining the pieces with '/' rebuilds the string. */
  lemma {:induction false} JoinOfPieces(s: string)
    ensures Join("/", Pieces(s)) == s
    decreases |s|
  {
    if '/' in s {
      var k := SlashIndex(s);
      var rest := s[k + 1..];
      JoinOfPieces(rest);
      assert Pieces(s) == [s[..k]] + Pieces(rest);
      assert s == s[..k] + "/" + rest;
    }
  }

  /** Java's split undoes a '/'-join whose last piece is not empty (or that has one piece). */
  lemma {:induction false} SplitOfJoin(ps: seq<string>)
    requires |ps| >= 1 && (|ps| == 1 || ps[|ps| - 1] != [])
    requires forall i :: 0 <= i < |ps| ==> '/' !in ps[i]
    ensures Split(Join("/", ps)) == ps
  {
    PiecesOfJoin(ps);
    if '/' !in Join("/", ps) {
      assert Pieces(Join("/", ps)) == [Join("/", ps)];
    }
  }

  predicate AllSlashes(s: string) {
    forall i :: 0 <= i < |s| ==> s[i] == '/'
  }

  predicate AllEmpty(ps: seq<string>) {
    forall i :: 0 <= i < |ps| ==> ps[i] == []
  }

  lemma {:induction false} AllSlashesUncons(s: string)
    requires |s| > 0
    ensures AllSlashes(s) <==> s[0] == '/' && AllSlashes(s[1..])
  {
    if s[0] == '/' && AllSlashes(s[1..]) {
      forall i | 0 < i < |s| ensures s[i] == '/' {
        assert s[i] == s[1..][i - 1];
      }
    }
  }

  /** The pieces are all empty exactly when the string is nothing but '/'. */
  lemma {:induction false} PiecesAllEmpty(s: string)
    ensures AllEmpty(Pieces(s)) <==> AllSlashes(s)
    decreases |s|
  {
    if '/' in s {
      var k := SlashIndex(s);
      var rest := s[k + 1..];
      PiecesAllEmpty(rest);
      var ps := Pieces(s);
      assert ps == [s[..k]] + Pieces(rest);
      assert AllEmpty(ps) <==> k == 0 && AllEmpty(Pieces(rest)) by {
        if AllEmpty(ps) {
          assert ps[0] == [];
          forall i | 0 <= i < |Pieces(rest)| ensures Pieces(rest)[i] == [] {
            assert Pieces(rest)[i] == ps[i + 1];
          }
        }
      }
      AllSlashesUncons(s);
    } else {
      assert Pieces(s) == [s];
      if |s| > 0 {
        assert s[0] in s;
        assert Pieces(s)[0] != [];
      }
    }
  }

  /** Java's split returns no entries exactly for a non-empty string of '/' only. */
  lemma {:induction false} SplitEmptyIff(s: string)
    ensures |Split(s)| == 0 <==> |s| > 0 && AllSlashes(s)
  {
    if '/' in s {
      PiecesAllEmpty(s);
    } else if |s| > 0 {
      assert s[0] in s;
    }
  }

  /** A name that survives a '/'-split and a trim unchanged: no '/' inside, nothing to trim. */
  predicate PlainName(name: string) {
    '/' !in name && IsTrimmed(name)
  }

  /** Every name of the list is plain. */
  predicate PlainNames(ts: seq<string>) {
    forall k :: 0 <= k < |ts| ==> PlainName(ts[k])
  }

  /** Trimming `ps` piece by piece gives `ts`. */
  predicate TrimsTo(ps: seq<string>, ts: seq<string>) {
    |ps| == |ts| && forall k :: 0 <= k < |ts| ==> Trim(ps[k]) == ts[k]
  }

  lemma {:induction false} TrimsToCons(x: string, rest: seq<string>, ts: seq<string>)
    requires |ts| >= 1 && Trim(x) == ts[0] && TrimsTo(rest, ts[1..])
    ensures TrimsTo([x] + rest, ts)
  {
    forall k | 0 < k < |ts| ensures Trim(([x] + rest)[k]) == ts[k] {
      assert ([x] + rest)[k] == rest[k - 1];
      assert ts[k] == ts[1..][k - 1];
    }
  }

  /** One name, possibly after the space of a separator, is a single piece that trims to the name. */
  lemma {:induction false} SpacedJoinOne(lead: string, ts: seq<string>)
    requires lead == "" || lead == " "
    requires |ts| == 1 && PlainNames(ts)
    ensures Pieces(lead + Join(" / ", ts)) == [lead + ts[0]]
  {
    var only := lead + ts[0];
    assert lead + Join(" / ", ts) == only;
    assert '/' !in only;
  }

  /** The first name of a " / "-join, with the spaces around it, is the first piece. */
  lemma {:induction false} SpacedJoinStep(lead: string, ts: seq<string>)
    requires lead == "" || lead == " "
    requires |ts| >= 2 && PlainNames(ts)
    ensures Pieces(lead + Join(" / ", ts)) == [lead + ts[0] + " "] + Pieces(" " + Join(" / ", ts[1..]))
  {
    var x := lead + ts[0] + " ";
    var y := " " + Join(" / ", ts[1..]);
    assert lead + Join(" / ", ts) == x + "/" + y;
    assert '/' !in x;
    PiecesAfterSlash(x, y);
  }

  /**
   * The pieces a " / "-join of `ts` is cut into: every name but the last keeps
   * the space before the next '/', every name but the first the space after
   * the previous one (`lead` stands for that space in front of the first).
   */
  function SpacedPieces(lead: string, ts: seq<string>): seq<string>
    requires |ts| >= 1
    decreases |ts|
  {
    if |ts| == 1 then [lead + ts[0]]
    else [lead + ts[0] + " "] + SpacedPieces(" ", ts[1..])
  }

  /** Cutting a " / "-join of plain names at '/' gives the spaced pieces. */
  lemma {:induction false} PiecesOfSpacedJoin(lead: string, ts: seq<string>)
    requires lead == "" || lead == " "
    requires |ts| >= 1 && PlainNames(ts)
    ensures Pieces(lead + Join(" / ", ts)) == SpacedPieces(lead, ts)
    decreases |ts|
  {
    if |ts| == 1 {
      SpacedJoinOne(lead, ts);
    } else {
      SpacedJoinStep(lead, ts);
      assert PlainNames(ts[1..]);
      PiecesOfSpacedJoin(" ", ts[1..]);
    }
  }

  /** Trimming the spaced pieces of trimmed names one by one gives the names. */
  lemma {:induction false} SpacedPiecesTrim(lead: string, ts: seq<string>)
    requires lead == "" || lead == " "
    requires |ts| >= 1 && forall k :: 0 <= k < |ts| ==> IsTrimmed(ts[k])
    ensures TrimsTo(SpacedPieces(lead, ts), ts)
    decreases |ts|
  {
    if |ts| == 1 {
      TrimPadded(lead, ts[0], "");
      assert lead + ts[0] + "" == lead + ts[0];
    } else {
      SpacedPiecesTrim(" ", ts[1..]);
      TrimPadded(lead, ts[0], " ");
      TrimsToCons(lead + ts[0] + " ", SpacedPieces(" ", ts[1..]), ts);
    }
  }

  /** The last spaced piece is the last name behind one space (behind `lead` for a single name). */
  lemma {:induction false} SpacedPiecesLast(lead: string, ts: seq<string>)
    requires |ts| >= 1
    ensures var ps := SpacedPieces(lead, ts);
            |ps| == |ts| && ps[|ps| - 1] == (if |ts| == 1 then lead else " ") + ts[|ts| - 1]
    decreases |ts|
  {
    if |ts| > 1 {
      SpacedPiecesLast(" ", ts[1..]);
      assert ts[1..][|ts| - 2] == ts[|ts| - 1];
    }
  }

  /**
   * Joining plain names with " / " and reading them back as the roster code
   * does (cut at '/', trim every piece) gives the same names.
   */
  lemma {:induction false} SpacedJoinPieces(lead: string, ts: seq<string>)
    requires lead == "" || lead == " "
    requires |ts| >= 1 && PlainNames(ts)
    ensures TrimsTo(Pieces(lead + Join(" / ", ts)), ts)
  {
    PiecesOfSpacedJoin(lead, ts);
    SpacedPiecesTrim(lead, ts);
  }

  /** `split` keeps every piece of a string whose last piece is not empty. */
  lemma {:induction false} SplitKeepsPieces(s: string)
    requires Pieces(s)[|Pieces(s)| - 1] != []
    ensures Split(s) == Pieces(s)
  {
    if '/' !in s {
      assert Pieces(s) == [s];
    }
  }

  /** A " / "-join of plain names is cut into its spaced pieces. */
  lemma {:induction false} PiecesOfJoinedNames(ts: seq<string>)
    requires |ts| >= 1 && PlainNames(ts)
    ensures Pieces(Join(" / ", ts)) == SpacedPieces("", ts)
  {
    var j := Join(" / ", ts);
    PiecesOfSpacedJoin("", ts);
    assert "" + j == j;
  }

  /** The last piece of a " / "-join of two or more plain names is not empty. */
  lemma {:induction false} SpacedJoinLastNonEmpty(ts: seq<string>)
    requires |ts| >= 2 && PlainNames(ts)
    ensures var ps := Pieces(Join(" / ", ts)); ps[|ps| - 1] != []
  {
    PiecesOfJoinedNames(ts);
    SpacedPiecesLast("", ts);
    var ps := SpacedPieces("", ts);
    assert |ps[|ps| - 1]| >= 1;
  }

  /** `split` drops nothing from a " / "-joined list of plain names. */
  lemma {:induction false} SplitOfSpacedJoin(ts: seq<string>)
    requires |ts| >= 1 && PlainNames(ts)
    ensures Split(Join(" / ", ts)) == Pieces(Join(" / ", ts))
  {
    if |ts| == 1 {
      var j := Join(" / ", ts);
      assert j == ts[0];
      assert Pieces(j) == [j];
    } else {
      SpacedJoinLastNonEmpty(ts);
      SplitKeepsPieces(Join(" / ", ts));
    }
  }

  /** The " / "-joined roster, split on '/' and trimmed piece by piece, is the roster again. */
  lemma {:induction false} SplitSpacedJoin(ts: seq<string>)
    requires |ts| >= 1 && PlainNames(ts)
    ensures TrimsTo(Split(Join(" / ", ts)), ts)
  {
    var j := Join(" / ", ts);
    SpacedJoinPieces("", ts);
    assert "" + j == j;
    SplitOfSpacedJoin(ts);
  }
}
