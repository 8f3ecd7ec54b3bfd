/**
 * String operations of the Java standard library that the request agent
 * relies on: `String.split("\\s+")`, `startsWith` and `endsWith`.
 */
module Text {

  /** Java's regular-expression class `\s`: space, tab, LF, VT, FF, CR. */
  predicate IsWs(c: char) {
    c == ' ' || c == '\t' || c == '\n' || c == '\U{0B}' || c == '\U{0C}' || c == '\r'
  }

  predicate NoWs(s: string) {
    forall i :: 0 <= i < |s| ==> !IsWs(s[i])
  }

  predicate AllWs(s: string) {
    forall i :: 0 <= i < |s| ==> IsWs(s[i])
  }

  /** `s.startsWith(prefix)`. */
  predicate StartsWith(s: string, prefix: string) {
    |prefix| <= |s| && s[..|prefix|] == prefix
  }

  /** `startsWith` holds exactly when `s` agrees with `prefix` on every position of `prefix`. */
  lemma StartsWithAt(s: string, prefix: string)
    ensures StartsWith(s, prefix) <==>
              |prefix| <= |s| && forall i :: 0 <= i < |prefix| ==> s[i] == prefix[i]
  {
    if |prefix| <= |s| && forall i :: 0 <= i < |prefix| ==> s[i] == prefix[i] {
      assert s[..|prefix|] == prefix;
    }
  }

  /** `s.endsWith(suffix)`. */
  predicate EndsWith(s: string, suffix: string) {
    |suffix| <= |s| && s[|s| - |suffix|..] == suffix
  }

  /** `endsWith` holds exactly when the last `|suffix|` characters of `s` are those of `suffix`. */
  lemma EndsWithAt(s: string, suffix: string)
    ensures EndsWith(s, suffix) <==>
              |suffix| <= |s| && forall i :: 0 <= i < |suffix| ==> s[|s| - |suffix| + i] == suffix[i]
  {
    if |suffix| <= |s| && forall i :: 0 <= i < |suffix| ==> s[|s| - |suffix| + i] == suffix[i] {
      assert s[|s| - |suffix|..] == suffix;
    }
  }

  /** Index of the first whitespace character of `s`, or `|s|` if there is none. */
  function FirstWs(s: string): (k: nat)
    ensures k <= |s|
    ensures NoWs(s[..k])
    ensures k < |s| ==> IsWs(s[k])
  {
    if s == [] || IsWs(s[0]) then 0
    else
      var k := 1 + FirstWs(s[1..]);
      assert s[..k] == [s[0]] + s[1..][..k - 1];
      k
  }

  /** Length of the run of whitespace that starts `s`. */
  function WsRun(s: string): (k: nat)
    ensures k <= |s|
    ensures AllWs(s[..k])
    ensures k < |s| ==> !IsWs(s[k])
  {
    if s == [] || !IsWs(s[0]) then 0
    else
      var k := 1 + WsRun(s[1..]);
      assert s[..k] == [s[0]] + s[1..][..k - 1];
      k
  }

  /** What follows the first token and the whitespace run after it; `s` must hold whitespace. */
  function AfterRun(s: string): (r: string)
    requires FirstWs(s) < |s|
    ensures |r| < |s| && s[|s| - |r|..] == r
    ensures FirstWs(s) < |s| - |r| && AllWs(s[FirstWs(s)..|s| - |r|])
    ensures r == "" || !IsWs(r[0])
    ensures r == s[FirstWs(s) + WsRun(s[FirstWs(s)..])..]
  {
    var i := FirstWs(s);
    var k := WsRun(s[i..]);
    assert s[i..][..k] == s[i..i + k];
    s[i + k..]
  }

  /**
   * The pieces between maximal runs of whitespace, before Java discards the
   * trailing empty ones: a leading run gives an empty first piece, a
   * trailing run an empty last piece.
   */
  function Pieces(s: string): (ps: seq<string>)
    ensures |ps| >= 1 && ps[0] == s[..FirstWs(s)]
    decreases |s|
  {
    if FirstWs(s) == |s| then [s]
    else [s[..FirstWs(s)]] + Pieces(AfterRun(s))
  }

  lemma {:induction false} PiecesNoWs(s: string)
    ensures forall k :: 0 <= k < |Pieces(s)| ==> NoWs(Pieces(s)[k])
    decreases |s|
  {
    if FirstWs(s) < |s| {
      PiecesNoWs(AfterRun(s));
    }
  }

  lemma {:induction false} PiecesInnerNonEmpty(s: string)
    ensures forall k :: 0 < k < |Pieces(s)| - 1 ==> Pieces(s)[k] != ""
    decreases |s|
  {
    if FirstWs(s) < |s| {
      var t := AfterRun(s);
      PiecesInnerNonEmpty(t);
      if |Pieces(t)| >= 2 {
        assert FirstWs(t) >= 1;
      }
    }
  }

  lemma {:induction false} PiecesAllEmpty(s: string)
    requires forall k :: 0 <= k < |Pieces(s)| ==> Pieces(s)[k] == ""
    ensures AllWs(s)
    decreases |s|
  {
    if FirstWs(s) < |s| {
      var t := AfterRun(s);
      var ps := Pieces(s);
      assert ps == [s[..FirstWs(s)]] + Pieces(t);
      assert forall k :: 0 <= k < |Pieces(t)| ==> Pieces(t)[k] == ps[k + 1];
      PiecesAllEmpty(t);
      AllWsAppend(s[..|s| - |t|], t);
      assert s == s[..|s| - |t|] + t;
    } else {
      assert Pieces(s)[0] == s;
    }
  }

  lemma AllWsAppend(a: string, b: string)
    requires AllWs(a) && AllWs(b)
    ensures AllWs(a + b)
  {
    forall m | 0 <= m < |a + b| ensures IsWs((a + b)[m]) {
      if m < |a| { assert (a + b)[m] == a[m]; } else { assert (a + b)[m] == b[m - |a|]; }
    }
  }

  /** Java's removal of trailing empty strings from a split result. */
  function DropTrailingEmpty(ts: seq<string>): (r: seq<string>)
    ensures |r| <= |ts| && r == ts[..|r|]
    ensures r == [] || r[|r| - 1] != ""
    ensures forall k :: |r| <= k < |ts| ==> ts[k] == ""
  {
    if ts != [] && ts[|ts| - 1] == "" then DropTrailingEmpty(ts[..|ts| - 1]) else ts
  }

  /** Tokens as `split` returns them: none holds whitespace, only the first may be empty. */
  predicate WellFormed(ts: seq<string>) {
    forall k :: 0 <= k < |ts| ==> NoWs(ts[k]) && (k > 0 ==> ts[k] != "")
  }

  /**
   * `s.split("\\s+")`: runs of whitespace separate tokens, a leading run
   * gives an empty first token, trailing empty tokens are dropped, and an
   * empty string (where the pattern never matches) gives `[""]`.
   */
  function Split(s: string): (tokens: seq<string>)
    ensures WellFormed(tokens)
    ensures tokens == [] <==> s != "" && AllWs(s)
    ensures tokens != [] ==> tokens[0] == s[..FirstWs(s)]
  {
    if s == "" then [""]
    else
      DroppedPiecesShape(s);
      DropTrailingEmpty(Pieces(s))
  }

  lemma DroppedPiecesShape(s: string)
    requires s != ""
    ensures WellFormed(DropTrailingEmpty(Pieces(s)))
    ensures DropTrailingEmpty(Pieces(s)) == [] <==> AllWs(s)
  {
    PiecesNoWs(s);
    PiecesInnerNonEmpty(s);
    DroppedWellFormed(Pieces(s));
    DroppedEmpty(Pieces(s));
    if DropTrailingEmpty(Pieces(s)) == [] {
      PiecesAllEmpty(s);
    }
    if AllWs(s) {
      AllWsPieces(s);
    }
  }

  /** Dropping trailing empty pieces leaves a well-formed token list when only the last piece may be empty. */
  lemma DroppedWellFormed(ps: seq<string>)
    requires forall k :: 0 <= k < |ps| ==> NoWs(ps[k])
    requires forall k :: 0 < k < |ps| - 1 ==> ps[k] != ""
    ensures WellFormed(DropTrailingEmpty(ps))
  {
    var r := DropTrailingEmpty(ps);
    forall k | 0 <= k < |r| ensures NoWs(r[k]) && (k > 0 ==> r[k] != "") {
      assert r[k] == ps[k];
      if k > 0 && k == |ps| - 1 {
        assert k == |r| - 1;
      }
    }
  }

  lemma DroppedEmpty(ps: seq<string>)
    ensures DropTrailingEmpty(ps) == [] <==> forall k :: 0 <= k < |ps| ==> ps[k] == ""
  {
  }

  lemma AllWsPieces(s: string)
    requires s != "" && AllWs(s)
    ensures Pieces(s) == ["", ""]
  {
    assert FirstWs(s) == 0;
    assert AfterRun(s) == "";
    assert Pieces("") == [""];
  }

  /** Tokens joined by the separators `seps`, one between each two neighbours. */
  function JoinWith(ts: seq<string>, seps: seq<string>): string
    requires ts != [] && |seps| == |ts| - 1
    decreases |ts|
  {
    if |ts| == 1 then ts[0] else ts[0] + seps[0] + JoinWith(ts[1..], seps[1..])
  }

  /** Separators as `\s+` matches them: non-empty runs of whitespace. */
  predicate Separators(seps: seq<string>) {
    forall i :: 0 <= i < |seps| ==> seps[i] != "" && AllWs(seps[i])
  }

  /**
   * Splitting recovers the tokens of any line built from them: a well-formed
   * token list joined by runs of whitespace of any length and kind, followed
   * by any trailing whitespace, splits back into exactly that list. (The one
   * exception is a lone empty token with trailing whitespace: that line is
   * all whitespace and splits into no tokens.)
   */
  lemma {:induction false} SplitJoinWith(ts: seq<string>, seps: seq<string>, trail: string)
    requires ts != [] && WellFormed(ts)
    requires |seps| == |ts| - 1 && Separators(seps) && AllWs(trail)
    requires ts != [""] || trail == ""
    ensures Split(JoinWith(ts, seps) + trail) == ts
  {
    var s := JoinWith(ts, seps) + trail;
    if |ts| > 1 {
      assert |seps[0]| > 0;
      assert |s| > 0;
    }
    if s == "" {
      assert ts == [""];
    } else {
      PiecesJoinWith(ts, seps, trail);
      var ps := Pieces(s);
      if trail != "" {
        assert ps[..|ps| - 1] == ts;
      }
      assert ts[|ts| - 1] != "";
    }
  }

  /** The pieces of a joined line: the tokens, and one empty piece for trailing whitespace. */
  lemma {:induction false} PiecesJoinWith(ts: seq<string>, seps: seq<string>, trail: string)
    requires ts != [] && WellFormed(ts)
    requires |seps| == |ts| - 1 && Separators(seps) && AllWs(trail)
    ensures Pieces(JoinWith(ts, seps) + trail) == ts + (if trail == "" then [] else [""])
    decreases |ts|
  {
    if |ts| == 1 {
      var t := ts[0];
      assert JoinWith(ts, seps) == t;
      if trail == "" {
        assert t + trail == t;
        PiecesOfToken(t);
      } else {
        AfterRunOfJoin(t, trail, "");
        assert t + trail + "" == t + trail;
        PiecesOfToken("");
      }
    } else {
      WellFormedTail(ts);
      assert Separators(seps[1..]) by {
        forall i | 0 <= i < |seps[1..]| ensures seps[1..][i] != "" && AllWs(seps[1..][i]) {
          assert seps[1..][i] == seps[i + 1];
        }
      }
      PiecesJoinWith(ts[1..], seps[1..], trail);
      assert seps[0] != "" && AllWs(seps[0]);
      PiecesJoinCons(ts, seps, trail);
    }
  }

  lemma PiecesOfToken(t: string)
    requires NoWs(t)
    ensures Pieces(t) == [t]
  {
    assert FirstWs(t) == |t|;
  }

  lemma PiecesJoinCons(ts: seq<string>, seps: seq<string>, trail: string)
    requires |ts| > 1 && |seps| == |ts| - 1
    requires NoWs(ts[0]) && ts[1] != "" && NoWs(ts[1])
    requires seps[0] != "" && AllWs(seps[0])
    requires Pieces(JoinWith(ts[1..], seps[1..]) + trail) == ts[1..] + (if trail == "" then [] else [""])
    ensures Pieces(JoinWith(ts, seps) + trail) == ts + (if trail == "" then [] else [""])
  {
    var u := JoinWith(ts[1..], seps[1..]) + trail;
    JoinTrailStart(ts[1..], seps[1..], trail);
    JoinConsTrail(ts, seps, trail);
    PiecesCons(ts[0], seps[0], u);
    assert ts == [ts[0]] + ts[1..];
  }

  lemma JoinTrailStart(ts: seq<string>, seps: seq<string>, trail: string)
    requires ts != [] && |seps| == |ts| - 1 && ts[0] != "" && NoWs(ts[0])
    ensures JoinWith(ts, seps) + trail != "" && !IsWs((JoinWith(ts, seps) + trail)[0])
  {
    JoinWithHead(ts, seps);
  }

  lemma JoinConsTrail(ts: seq<string>, seps: seq<string>, trail: string)
    requires |ts| > 1 && |seps| == |ts| - 1
    ensures JoinWith(ts, seps) + trail == ts[0] + seps[0] + (JoinWith(ts[1..], seps[1..]) + trail)
  {
    Regroup(ts[0], seps[0], JoinWith(ts[1..], seps[1..]), trail);
  }

  lemma Regroup(a: string, b: string, c: string, d: string)
    ensures a + b + c + d == a + b + (c + d)
  {
  }

  /** A token, a separator, and a line starting with a token: the token is the first piece. */
  lemma PiecesCons(a: string, w: string, u: string)
    requires NoWs(a) && w != "" && AllWs(w) && (u == "" || !IsWs(u[0]))
    ensures Pieces(a + w + u) == [a] + Pieces(u)
  {
    AfterRunOfJoin(a, w, u);
    var s := a + w + u;
    assert s[..|a|] == a;
  }

  lemma WellFormedTail(ts: seq<string>)
    requires |ts| > 1 && WellFormed(ts)
    ensures WellFormed(ts[1..]) && ts[1] != "" && NoWs(ts[0])
  {
    var rest := ts[1..];
    forall k | 0 <= k < |rest| ensures NoWs(rest[k]) && (k > 0 ==> rest[k] != "") {
      assert rest[k] == ts[k + 1];
    }
  }

  lemma JoinWithHead(ts: seq<string>, seps: seq<string>)
    requires ts != [] && |seps| == |ts| - 1 && ts[0] != ""
    ensures JoinWith(ts, seps) != "" && JoinWith(ts, seps)[0] == ts[0][0]
  {
  }

  lemma {:induction false} FirstWsAfter(a: string, v: string)
    requires NoWs(a) && v != "" && IsWs(v[0])
    ensures FirstWs(a + v) == |a|
    decreases |a|
  {
    if a == "" {
      assert a + v == v;
    } else {
      var s := a + v;
      assert s[0] == a[0] && !IsWs(a[0]);
      assert s[1..] == a[1..] + v;
      assert NoWs(a[1..]) by {
        forall i | 0 <= i < |a[1..]| ensures !IsWs(a[1..][i]) {
          assert a[1..][i] == a[i + 1];
        }
      }
      FirstWsAfter(a[1..], v);
      assert FirstWs(s) == 1 + FirstWs(s[1..]);
    }
  }

  /** Length of a whitespace run followed by a non-whitespace character or nothing. */
  lemma {:induction false} WsRunPrefix(w: string, u: string)
    requires AllWs(w) && (u == "" || !IsWs(u[0]))
    ensures WsRun(w + u) == |w|
    decreases |w|
  {
    if w == "" {
      assert w + u == u;
    } else {
      var s := w + u;
      assert s[0] == w[0] && IsWs(w[0]);
      assert s[1..] == w[1..] + u;
      assert AllWs(w[1..]) by {
        forall i | 0 <= i < |w[1..]| ensures IsWs(w[1..][i]) {
          assert w[1..][i] == w[i + 1];
        }
      }
      WsRunPrefix(w[1..], u);
      assert WsRun(s) == 1 + WsRun(s[1..]);
    }
  }

  lemma AfterRunOfJoin(a: string, w: string, u: string)
    requires NoWs(a) && w != "" && AllWs(w) && (u == "" || !IsWs(u[0]))
    ensures FirstWs(a + w + u) == |a| < |a + w + u|
    ensures AfterRun(a + w + u) == u
  {
    var v := w + u;
    var s := a + w + u;
    assert s == a + v;
    assert v[0] == w[0] && IsWs(v[0]);
    FirstWsAfter(a, v);
    assert s[|a|..] == v;
    WsRunPrefix(w, u);
    assert v[|w|..] == u;
    assert s[|a| + |w|..] == u;
    assert AfterRun(s) == s[|a| + WsRun(v)..];
  }
}
