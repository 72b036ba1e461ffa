/** Department resolver: maps a group's free department text to the name of a
    configured department cluster by substring matching, and the comma-split
    token list the cluster form builds. */
module Resolver {
  import opened Domain

  /** `t` occurs in `s` as a contiguous piece (JavaScript's `s.includes(t)`);
      the empty string occurs in every string. */
  predicate Contains(s: string, t: string)
    decreases |s|
  {
    t <= s || (|s| > 0 && Contains(s[1..], t))
  }

  /** `t` occurs in `s` starting at position `i`. */
  predicate OccursAt(s: string, t: string, i: int)
  {
    0 <= i && i + |t| <= |s| && s[i..i + |t|] == t
  }

  /** `Contains` is substring occurrence at some position. */
  lemma {:induction false} ContainsIffOccurs(s: string, t: string)
    ensures Contains(s, t) <==> exists i :: OccursAt(s, t, i)
    decreases |s|
  {
    if t <= s {
      assert s[0..|t|] == t;
      assert OccursAt(s, t, 0);
    } else if |s| > 0 {
      ContainsIffOccurs(s[1..], t);
      if exists i :: OccursAt(s[1..], t, i) {
        var i :| OccursAt(s[1..], t, i);
        assert s[i + 1..i + 1 + |t|] == s[1..][i..i + |t|];
        assert OccursAt(s, t, i + 1);
      }
      if exists i :: OccursAt(s, t, i) {
        var i :| OccursAt(s, t, i);
        assert OccursAt(s, t, 0) ==> t <= s;
        assert s[1..][i - 1..i - 1 + |t|] == s[i..i + |t|];
        assert OccursAt(s[1..], t, i - 1);
      }
    } else {
      forall i ensures !OccursAt(s, t, i) {
        assert OccursAt(s, t, i) ==> t <= s;
      }
    }
  }

  /** A cluster matches a department text when one of its tokens occurs in
      the text (`group.departments.some((d) => dept.includes(d))`). */
  predicate Matches(c: Cluster, dept: string)
  {
    exists k | 0 <= k < |c.departments| :: Contains(dept, c.departments[k])
  }

  /** The first cluster, in configured order, that matches `dept` (`find`). */
  function FindCluster(clusters: seq<Cluster>, dept: string): (r: Option<nat>)
    ensures r.Some? ==> r.value < |clusters|
  {
    if clusters == [] then None
    else if Matches(clusters[0], dept) then Some(0)
    else match FindCluster(clusters[1..], dept)
      case None => None
      case Some(i) => Some(i + 1)
  }

  /** `FindCluster` finds the first matching cluster, and finds none exactly
      when no cluster matches. */
  lemma {:induction false} FindClusterFirst(clusters: seq<Cluster>, dept: string)
    ensures FindCluster(clusters, dept).Some? ==>
      var i := FindCluster(clusters, dept).value;
      && i < |clusters| && Matches(clusters[i], dept)
      && forall j | 0 <= j < i :: !Matches(clusters[j], dept)
    ensures FindCluster(clusters, dept).None? <==> forall j | 0 <= j < |clusters| :: !Matches(clusters[j], dept)
    decreases |clusters|
  {
    if clusters != [] && !Matches(clusters[0], dept) {
      FindClusterFirst(clusters[1..], dept);
      forall j | 0 < j < |clusters| ensures clusters[j] == clusters[1..][j - 1] { }
    }
  }

  /** The cluster name a group's department text resolves to: the name of the
      first matching cluster, or the text itself when no cluster matches or
      the matching cluster's name is empty (`?.name || dept`). */
  function Resolve(clusters: seq<Cluster>, dept: string): string
  {
    match FindCluster(clusters, dept)
    case None => dept
    case Some(i) => if clusters[i].name == "" then dept else clusters[i].name
  }

  /** With no matching cluster the text resolves to itself; otherwise to the
      name of the first matching cluster, or to itself when that name is empty. */
  lemma ResolveFirstMatch(clusters: seq<Cluster>, dept: string)
    ensures (forall i | 0 <= i < |clusters| :: !Matches(clusters[i], dept)) ==> Resolve(clusters, dept) == dept
    ensures forall i | 0 <= i < |clusters| && Matches(clusters[i], dept) ::
      (forall j | 0 <= j < i :: !Matches(clusters[j], dept)) ==>
        Resolve(clusters, dept) == (if clusters[i].name == "" then dept else clusters[i].name)
  {
    FindClusterFirst(clusters, dept);
    var r := FindCluster(clusters, dept);
    forall i | 0 <= i < |clusters| && Matches(clusters[i], dept) && (forall j | 0 <= j < i :: !Matches(clusters[j], dept))
      ensures r == Some(i)
    {
      assert r.Some?;
      assert !(r.value < i);
      assert !(i < r.value);
    }
  }

  /** A cluster token that is only part of a department name still matches:
      the token "CS" resolves the text "CSE, IT" to its cluster. */
  lemma PartialTokenMatches()
    ensures Resolve([Cluster("Eng", ["CS"])], "CSE, IT") == "Eng"
  {
    var eng := Cluster("Eng", ["CS"]);
    assert Contains("CSE, IT", eng.departments[0]);
    assert Matches(eng, "CSE, IT");
    assert FindCluster([eng], "CSE, IT") == Some(0);
  }

  /** An empty token matches every department text. */
  lemma EmptyTokenMatchesAll(c: Cluster, dept: string)
    requires "" in c.departments
    ensures Matches(c, dept)
  {
    var k :| 0 <= k < |c.departments| && c.departments[k] == "";
    assert Contains(dept, c.departments[k]);
  }

  /** The characters JavaScript's `trim` removes: white space and line terminators. */
  predicate IsSpace(c: char)
  {
    || c == '\t' || c == '\n' || c == '\U{000B}' || c == '\U{000C}' || c == '\r' || c == ' '
    || c == '\U{00A0}' || c == '\U{1680}' || ('\U{2000}' <= c <= '\U{200A}')
    || c == '\U{2028}' || c == '\U{2029}' || c == '\U{202F}' || c == '\U{205F}'
    || c == '\U{3000}' || c == '\U{FEFF}'
  }

  predicate AllSpace(s: string)
  {
    forall i | 0 <= i < |s| :: IsSpace(s[i])
  }

  /** The number of white-space characters `s` starts with. */
  function LeadingSpace(s: string): (n: nat)
    ensures n <= |s|
  {
    if s != [] && IsSpace(s[0]) then 1 + LeadingSpace(s[1..]) else 0
  }

  /** The number of white-space characters `s` ends with. */
  function TrailingSpace(s: string): (n: nat)
    ensures n <= |s|
  {
    if s != [] && IsSpace(s[|s| - 1]) then 1 + TrailingSpace(s[..|s| - 1]) else 0
  }

  /** `LeadingSpace` counts exactly the white space before the first other character. */
  lemma {:induction false} LeadingSpaceExact(s: string)
    ensures AllSpace(s[..LeadingSpace(s)])
    ensures LeadingSpace(s) == |s| || !IsSpace(s[LeadingSpace(s)])
    decreases |s|
  {
    if s != [] && IsSpace(s[0]) {
      var n := LeadingSpace(s[1..]);
      LeadingSpaceExact(s[1..]);
      forall i | 0 < i <= n ensures s[i] == s[1..][i - 1] { }
    }
  }

  /** `TrailingSpace` counts exactly the white space after the last other character. */
  lemma {:induction false} TrailingSpaceExact(s: string)
    ensures AllSpace(s[|s| - TrailingSpace(s)..])
    ensures TrailingSpace(s) == |s| || !IsSpace(s[|s| - TrailingSpace(s) - 1])
    decreases |s|
  {
    if s != [] && IsSpace(s[|s| - 1]) {
      var init := s[..|s| - 1];
      var n := TrailingSpace(init);
      TrailingSpaceExact(init);
      forall i | |s| - 1 - n <= i < |s| - 1 ensures s[i] == init[i] { }
    }
  }

  /** JavaScript's `trim`: `s` without white space at either end. */
  function Trim(s: string): string
  {
    var i := LeadingSpace(s);
    s[i..|s| - TrailingSpace(s[i..])]
  }

  /** `Trim` removes only white space, and leaves a piece that is empty or
      starts and ends with a character that is not white space. */
  lemma TrimExact(s: string)
    ensures var i := LeadingSpace(s);
      var j := |s| - TrailingSpace(s[i..]);
      && i <= j && Trim(s) == s[i..j]
      && AllSpace(s[..i]) && AllSpace(s[j..])
    ensures Trim(s) == [] || (!IsSpace(Trim(s)[0]) && !IsSpace(Trim(s)[|Trim(s)| - 1]))
  {
    var i := LeadingSpace(s);
    var t := s[i..];
    var n := TrailingSpace(t);
    LeadingSpaceExact(s);
    TrailingSpaceExact(t);
    assert s[|s| - n..] == t[|t| - n..];
    var r := Trim(s);
    if r != [] {
      assert r[0] == s[i];
      assert r[|r| - 1] == t[|t| - n - 1];
    }
  }

  /** JavaScript's `s.split(",")`: the pieces between commas, one more than
      there are commas (so `""` gives `[""]` and a trailing comma gives a
      final empty piece). */
  function SplitOnComma(s: string): (r: seq<string>)
    ensures |r| > 0
  {
    if s == [] then [""]
    else
      var rest := SplitOnComma(s[1..]);
      if s[0] == ',' then [""] + rest
      else [[s[0]] + rest[0]] + rest[1..]
  }

  /** The inverse of `SplitOnComma`: the pieces joined with commas. */
  function JoinWithComma(pieces: seq<string>): string
  {
    if pieces == [] then ""
    else if |pieces| == 1 then pieces[0]
    else pieces[0] + "," + JoinWithComma(pieces[1..])
  }

  /** No piece of a split holds a comma. */
  lemma {:induction false} SplitNoComma(s: string)
    ensures forall k | 0 <= k < |SplitOnComma(s)| :: ',' !in SplitOnComma(s)[k]
    decreases |s|
  {
    if s != [] {
      SplitNoComma(s[1..]);
    }
  }

  /** Joining the pieces of a split gives back the text. */
  lemma {:induction false} JoinSplit(s: string)
    ensures JoinWithComma(SplitOnComma(s)) == s
    decreases |s|
  {
    if s != [] {
      var rest := SplitOnComma(s[1..]);
      JoinSplit(s[1..]);
      if s[0] == ',' {
        assert ([""] + rest)[1..] == rest;
      } else {
        var r := [[s[0]] + rest[0]] + rest[1..];
        assert r[1..] == rest[1..];
        if |rest| > 1 {
          assert JoinWithComma(rest) == rest[0] + "," + JoinWithComma(rest[1..]);
        }
      }
    }
  }

  /** Splitting a comma-free join gives back the pieces. */
  lemma {:induction false} SplitJoin(pieces: seq<string>)
    requires |pieces| > 0
    requires forall k | 0 <= k < |pieces| :: ',' !in pieces[k]
    ensures SplitOnComma(JoinWithComma(pieces)) == pieces
    decreases pieces
  {
    if |pieces| == 1 {
      SplitPiece(pieces[0], []);
      assert pieces[0] + "" == pieces[0];
    } else {
      var rest := pieces[1..];
      SplitJoin(rest);
      SplitPiece(pieces[0], "," + JoinWithComma(rest));
      assert ("," + JoinWithComma(rest))[1..] == JoinWithComma(rest);
      assert JoinWithComma(pieces) == pieces[0] + ("," + JoinWithComma(rest));
      assert pieces == [pieces[0]] + rest;
    }
  }

  /** Splitting a comma-free piece followed by `tail` (empty or starting with a comma). */
  lemma {:induction false} SplitPiece(p: string, tail: string)
    requires ',' !in p
    requires tail == [] || tail[0] == ','
    ensures tail == [] ==> SplitOnComma(p + tail) == [p]
    ensures tail != [] ==> SplitOnComma(p + tail) == [p] + SplitOnComma(tail[1..])
    decreases |p|
  {
    if p == [] {
      assert p + tail == tail;
    } else {
      SplitPiece(p[1..], tail);
      assert (p + tail)[1..] == p[1..] + tail;
      assert [p[0]] + p[1..] == p;
    }
  }

  /** The number of commas in `s`. */
  function Commas(s: string): nat
  {
    if s == [] then 0 else (if s[0] == ',' then 1 else 0) + Commas(s[1..])
  }

  /** A split has one piece more than the text has commas. */
  lemma {:induction false} SplitCount(s: string)
    ensures |SplitOnComma(s)| == Commas(s) + 1
    decreases |s|
  {
    if s != [] {
      SplitCount(s[1..]);
    }
  }

  /** Trimming keeps only characters of the text, so a character absent
      from the text is absent from the trimmed text. */
  lemma TrimKeeps(s: string, c: char)
    requires c !in s
    ensures c !in Trim(s)
  {
    TrimExact(s);
    var i := LeadingSpace(s);
    var j := |s| - TrailingSpace(s[i..]);
    forall m | 0 <= m < |Trim(s)| ensures Trim(s)[m] != c {
      assert Trim(s)[m] == s[i + m];
    }
  }

  /** The trimmed pieces of a split hold no comma and have no white space at either end. */
  lemma TrimPieces(pieces: seq<string>)
    requires forall k | 0 <= k < |pieces| :: ',' !in pieces[k]
    ensures forall k | 0 <= k < |pieces| :: ',' !in Trim(pieces[k])
    ensures forall k | 0 <= k < |pieces| :: Trim(pieces[k]) == [] || (!IsSpace(Trim(pieces[k])[0]) && !IsSpace(Trim(pieces[k])[|Trim(pieces[k])| - 1]))
  {
    forall k | 0 <= k < |pieces| ensures ',' !in Trim(pieces[k]) {
      TrimKeeps(pieces[k], ',');
    }
    forall k | 0 <= k < |pieces|
      ensures Trim(pieces[k]) == [] || (!IsSpace(Trim(pieces[k])[0]) && !IsSpace(Trim(pieces[k])[|Trim(pieces[k])| - 1]))
    {
      TrimExact(pieces[k]);
    }
  }

  /** `t` is `p` with only white space removed from its two ends. */
  predicate EdgeTrimmed(t: string, p: string)
  {
    exists i, j | 0 <= i <= j <= |p| :: t == p[i..j] && AllSpace(p[..i]) && AllSpace(p[j..])
  }

  /** Each trimmed piece is its piece with only white space removed from the two ends. */
  lemma TrimFields(pieces: seq<string>)
    ensures forall k | 0 <= k < |pieces| :: EdgeTrimmed(Trim(pieces[k]), pieces[k])
  {
    forall k | 0 <= k < |pieces| ensures EdgeTrimmed(Trim(pieces[k]), pieces[k]) {
      var p := pieces[k];
      TrimExact(p);
      var i := LeadingSpace(p);
      var j := |p| - TrailingSpace(p[i..]);
      assert Trim(p) == p[i..j] && AllSpace(p[..i]) && AllSpace(p[j..]);
    }
  }

  /** The department tokens of the cluster form (`split(",").map(d => d.trim())`):
      one token per comma-separated field, and one more than the text has
      commas; each token is its field with only white space removed from the
      two ends, holds no comma, and is empty or without white space at
      either end. */
  function Tokens(s: string): (r: seq<string>)
    ensures |r| == |SplitOnComma(s)| == Commas(s) + 1
    ensures forall k | 0 <= k < |r| :: EdgeTrimmed(r[k], SplitOnComma(s)[k])
    ensures forall k | 0 <= k < |r| :: ',' !in r[k]
    ensures forall k | 0 <= k < |r| :: r[k] == [] || (!IsSpace(r[k][0]) && !IsSpace(r[k][|r[k]| - 1]))
  {
    var pieces := SplitOnComma(s);
    SplitCount(s);
    SplitNoComma(s);
    TrimPieces(pieces);
    TrimFields(pieces);
    seq(|pieces|, k requires 0 <= k < |pieces| => Trim(pieces[k]))
  }

  /** A trailing comma in the cluster form yields an empty token, and so a
      cluster that matches every department text. */
  lemma {:induction false} TrailingCommaMatchesAll(name: string, s: string, dept: string)
    ensures Matches(Cluster(name, Tokens(s + ",")), dept)
  {
    var pieces := SplitOnComma(s + ",");
    SplitTrailing(s);
    assert pieces[|pieces| - 1] == "";
    var toks := Tokens(s + ",");
    assert toks[|toks| - 1] == Trim("") == "";
    EmptyTokenMatchesAll(Cluster(name, toks), dept);
  }

  /** Splitting a text that ends with a comma gives a final empty piece. */
  lemma {:induction false} SplitTrailing(s: string)
    ensures SplitOnComma(s + ",")[|SplitOnComma(s + ",")| - 1] == ""
    decreases |s|
  {
    if s == [] {
      assert SplitOnComma(",") == [""] + SplitOnComma("");
    } else {
      SplitTrailing(s[1..]);
      assert (s + ",")[1..] == s[1..] + ",";
    }
  }
}
