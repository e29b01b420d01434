/** String primitives of the JavaScript runtime that the plugin relies on:
    the `\s` and line-terminator character classes, ASCII lower-casing,
    `String.prototype.includes`, `split` on a one-character separator,
    `split(/\s+/)` and `Array.prototype.join`. */
module Text {

  datatype Option<T> = None | Some(value: T)

  /** The ECMAScript LineTerminator code points: what `.` refuses and where `^`/`$`
      match in multiline mode. */
  predicate IsLineTerminator(c: char) {
    c == '\n' || c == '\r' || c == '\U{2028}' || c == '\U{2029}'
  }

  /** The ECMAScript `\s` class: WhiteSpace and LineTerminator code points. */
  predicate IsWs(c: char) {
    || IsLineTerminator(c)
    || c == '\t' || c == '\U{B}' || c == '\U{C}' || c == ' ' || c == '\U{A0}'
    || c == '\U{1680}' || ('\U{2000}' <= c <= '\U{200A}')
    || c == '\U{202F}' || c == '\U{205F}' || c == '\U{3000}' || c == '\U{FEFF}'
  }

  /** The ECMAScript `\d` class: ASCII digits only. */
  predicate IsDigit(c: char) {
    '0' <= c <= '9'
  }

  /** The first line terminator at or after `from`, or the end of `s`: where a
      greedy `.*` started at `from` stops, and where a multiline `$` matches. */
  function LineEnd(s: string, from: nat): (e: nat)
    requires from <= |s|
    ensures from <= e <= |s|
    ensures forall j :: from <= j < e ==> !IsLineTerminator(s[j])
    ensures e == |s| || IsLineTerminator(s[e])
    decreases |s| - from
  {
    if from == |s| || IsLineTerminator(s[from]) then from else LineEnd(s, from + 1)
  }

  /** No line terminator in `s`. */
  predicate OneLine(s: string) {
    forall k :: 0 <= k < |s| ==> !IsLineTerminator(s[k])
  }

  predicate NoWs(s: string) {
    forall k :: 0 <= k < |s| ==> !IsWs(s[k])
  }

  predicate AllWs(s: string) {
    forall k :: 0 <= k < |s| ==> IsWs(s[k])
  }

  function LowerChar(c: char): char {
    if 'A' <= c <= 'Z' then (c as int + 32) as char else c
  }

  /** `toLowerCase`, restricted to the ASCII letters: no capital is left, each
      capital becomes the letter 32 code points above it, and every other
      character is kept in its place. */
  function ToLower(s: string): (r: string)
    ensures |r| == |s|
    ensures forall k :: 0 <= k < |r| ==> !('A' <= r[k] <= 'Z')
    ensures forall k :: 0 <= k < |s| && 'A' <= s[k] <= 'Z' ==> r[k] as int == s[k] as int + 32
    ensures forall k :: 0 <= k < |s| && !('A' <= s[k] <= 'Z') ==> r[k] == s[k]
  {
    seq(|s|, k requires 0 <= k < |s| => LowerChar(s[k]))
  }

  /** Lowering twice is lowering once. */
  lemma ToLowerIdempotent(s: string)
    ensures ToLower(ToLower(s)) == ToLower(s)
  {
    var r := ToLower(s);
    forall k | 0 <= k < |r| ensures ToLower(r)[k] == r[k] {
      assert !('A' <= r[k] <= 'Z');
    }
  }

  lemma LowerKeepsWs(c: char)
    ensures IsWs(LowerChar(c)) <==> IsWs(c)
  {
  }

  predicate OccursAt(s: string, w: string, i: int) {
    0 <= i && i + |w| <= |s| && s[i..i + |w|] == w
  }

  /** `s.includes(w)`. */
  predicate Includes(s: string, w: string) {
    exists i :: 0 <= i <= |s| - |w| && OccursAt(s, w, i)
  }

  lemma IncludesEmpty(s: string)
    ensures Includes(s, "")
  {
    assert OccursAt(s, "", 0);
  }

  /** `s.split(sep)` for a one-character separator: the pieces between the
      separators; never empty, `""` gives `[""]`. */
  function Split(s: string, sep: char): (r: seq<string>)
    ensures |r| >= 1
    decreases |s|
  {
    if s == [] then [""]
    else if s[0] == sep then [""] + Split(s[1..], sep)
    else
      var t := Split(s[1..], sep);
      [[s[0]] + t[0]] + t[1..]
  }

  /** `xs.join(sep)`. */
  function Join(xs: seq<string>, sep: string): string
    decreases |xs|
  {
    if |xs| == 0 then ""
    else if |xs| == 1 then xs[0]
    else xs[0] + sep + Join(xs[1..], sep)
  }

  lemma SplitUnfoldChar(s: string, sep: char)
    requires s != [] && s[0] != sep
    ensures var r, t := Split(s, sep), Split(s[1..], sep);
      |r| == |t| && r[0] == [s[0]] + t[0] && r[1..] == t[1..]
  {
  }

  /** Gluing `c` onto the first piece glues it onto the front of the join. */
  lemma JoinPrepend(c: string, xs: seq<string>, sep: string)
    requires |xs| >= 1
    ensures Join([c + xs[0]] + xs[1..], sep) == c + Join(xs, sep)
  {
    var g := [c + xs[0]] + xs[1..];
    assert g[0] == c + xs[0] && g[1..] == xs[1..];
    if |xs| > 1 {
      calc {
        Join(g, sep);
        (c + xs[0]) + sep + Join(xs[1..], sep);
        { Assoc4(c, xs[0], sep, Join(xs[1..], sep)); }
        c + (xs[0] + sep + Join(xs[1..], sep));
      }
    }
  }

  lemma Assoc4(a: string, b: string, c: string, d: string)
    ensures a + b + c + d == a + (b + c + d)
  {
  }

  /** No piece of `Split(s, sep)` contains the separator. */
  lemma {:induction false} SplitNoSep(s: string, sep: char)
    ensures forall k :: 0 <= k < |Split(s, sep)| ==> sep !in Split(s, sep)[k]
    decreases |s|
  {
    if s != [] {
      SplitNoSep(s[1..], sep);
      var t := Split(s[1..], sep);
      var r := Split(s, sep);
      if s[0] == sep {
        assert r == [""] + t;
        forall k | 0 <= k < |r| ensures sep !in r[k] {
          if k > 0 { assert r[k] == t[k - 1]; }
        }
      } else {
        SplitUnfoldChar(s, sep);
        forall k | 0 <= k < |r| ensures sep !in r[k] {
          if k > 0 { assert r[k] == t[k]; }
          else { assert sep !in t[0]; }
        }
      }
    }
  }

  /** Splitting then joining with the same separator gives the text back,
      and no piece contains the separator. */
  lemma {:induction false} JoinSplit(s: string, sep: char)
    ensures Join(Split(s, sep), [sep]) == s
    ensures forall k :: 0 <= k < |Split(s, sep)| ==> sep !in Split(s, sep)[k]
    decreases |s|
  {
    SplitNoSep(s, sep);
    if s != [] {
      JoinSplit(s[1..], sep);
      var t := Split(s[1..], sep);
      var r := Split(s, sep);
      if s[0] == sep {
        assert r == [""] + t;
        assert r[1..] == t;
        assert Join(r, [sep]) == [sep] + s[1..];
      } else {
        SplitUnfoldChar(s, sep);
        JoinPrepend([s[0]], t, [sep]);
        assert r == [[s[0]] + t[0]] + t[1..];
      }
      assert s == [s[0]] + s[1..];
    }
  }

  /** Joining pieces that do not contain the separator, then splitting, gives the
      pieces back. */
  lemma {:induction false} SplitJoin(xs: seq<string>, sep: char)
    requires |xs| >= 1
    requires forall k :: 0 <= k < |xs| ==> sep !in xs[k]
    ensures Split(Join(xs, [sep]), sep) == xs
    decreases |xs|, |xs[0]|
  {
    if xs[0] == [] {
      if |xs| > 1 {
        var rest := xs[1..];
        assert forall k :: 0 <= k < |rest| ==> sep !in rest[k] by {
          forall k | 0 <= k < |rest| ensures sep !in rest[k] { assert rest[k] == xs[k + 1]; }
        }
        SplitJoin(rest, sep);
        var j := Join(xs, [sep]);
        assert j == [sep] + Join(rest, [sep]);
        assert j[0] == sep && j[1..] == Join(rest, [sep]);
        assert xs == [""] + rest;
      }
    } else {
      var c := xs[0][0];
      var ys := [xs[0][1..]] + xs[1..];
      assert ys[0] == xs[0][1..] && ys[1..] == xs[1..];
      assert forall k :: 0 <= k < |ys| ==> sep !in ys[k] by {
        forall k | 0 <= k < |ys| ensures sep !in ys[k] {
          if k > 0 { assert ys[k] == xs[k]; }
        }
      }
      SplitJoin(ys, sep);
      assert xs[0] == [c] + ys[0];
      JoinPrepend([c], ys, [sep]);
      assert [[c] + ys[0]] + ys[1..] == xs;
      var j := Join(xs, [sep]);
      assert j == [c] + Join(ys, [sep]);
      assert j[1..] == Join(ys, [sep]);
      SplitUnfoldChar(j, sep);
    }
  }

  /** `s.replace(/^\s+/, "")`: the text after a leading whitespace run. */
  function TrimStartWs(s: string): (r: string)
    ensures |r| <= |s| && r == s[|s| - |r|..]
    ensures AllWs(s[..|s| - |r|])
    ensures r == [] || !IsWs(r[0])
    decreases |s|
  {
    if s != [] && IsWs(s[0]) then TrimStartWs(s[1..]) else s
  }

  /** `s.split(/\s+/)`: the fields between maximal whitespace runs. Never empty;
      `""` gives `[""]`, and a leading or trailing run gives an empty first or last
      field. */
  function SplitWs(s: string): (r: seq<string>)
    ensures |r| >= 1
    decreases |s|
  {
    if s == [] then [""]
    else if IsWs(s[0]) then [""] + SplitWs(TrimStartWs(s))
    else
      var t := SplitWs(s[1..]);
      [[s[0]] + t[0]] + t[1..]
  }

  /** The whitespace runs between the fields of `SplitWs(s)`, as a reference
      description of the split. */
  ghost function WsRuns(s: string): (d: seq<string>)
    decreases |s|
  {
    if s == [] then []
    else if IsWs(s[0]) then [s[..|s| - |TrimStartWs(s)|]] + WsRuns(TrimStartWs(s))
    else WsRuns(s[1..])
  }

  /** Fields and runs interleaved: `f0 + d0 + f1 + d1 + ... + fn`. */
  function Interleave(fields: seq<string>, runs: seq<string>): string
    requires |fields| == |runs| + 1
    decreases |runs|
  {
    if runs == [] then fields[0]
    else fields[0] + runs[0] + Interleave(fields[1..], runs[1..])
  }

  /** Every field of `SplitWs(s)` is free of whitespace. */
  lemma {:induction false} SplitWsFieldsNoWs(s: string)
    ensures forall k :: 0 <= k < |SplitWs(s)| ==> NoWs(SplitWs(s)[k])
    decreases |s|
  {
    if s == [] {
    } else if IsWs(s[0]) {
      var u := TrimStartWs(s);
      SplitWsFieldsNoWs(u);
      var r := SplitWs(s);
      forall k | 0 <= k < |r| ensures NoWs(r[k]) {
        if k > 0 { assert r[k] == SplitWs(u)[k - 1]; }
      }
    } else {
      var t := SplitWs(s[1..]);
      SplitWsFieldsNoWs(s[1..]);
      var r := SplitWs(s);
      forall k | 0 <= k < |r| ensures NoWs(r[k]) {
        if k > 0 { assert r[k] == t[k]; }
        else {
          assert r[0] == [s[0]] + t[0];
          assert NoWs(t[0]);
        }
      }
    }
  }

  /** There is one run fewer than fields, and every run is a non-empty stretch of
      whitespace. */
  lemma {:induction false} WsRunsAreRuns(s: string)
    ensures |WsRuns(s)| == |SplitWs(s)| - 1
    ensures forall k :: 0 <= k < |WsRuns(s)| ==> WsRuns(s)[k] != [] && AllWs(WsRuns(s)[k])
    decreases |s|
  {
    if s == [] {
    } else if IsWs(s[0]) {
      var u := TrimStartWs(s);
      WsRunsAreRuns(u);
      var d := WsRuns(s);
      assert d[1..] == WsRuns(u);
      forall k | 0 <= k < |d| ensures d[k] != [] && AllWs(d[k]) {
        if k > 0 { assert d[k] == WsRuns(u)[k - 1]; }
      }
    } else {
      WsRunsAreRuns(s[1..]);
    }
  }

  lemma InterleavePrepend(c: string, fields: seq<string>, runs: seq<string>)
    requires |fields| == |runs| + 1
    ensures Interleave([c + fields[0]] + fields[1..], runs) == c + Interleave(fields, runs)
  {
    var g := [c + fields[0]] + fields[1..];
    assert g[0] == c + fields[0] && g[1..] == fields[1..];
  }

  /** `SplitWs` is the tokenisation of `s` into whitespace-free fields separated by
      non-empty whitespace runs (`SplitWsFieldsNoWs`, `WsRunsAreRuns`), where only
      the first and the last field may be empty (`SplitWsInnerNonEmpty`); the three
      together pin the fields down uniquely. */
  lemma {:induction false} SplitWsTokenizes(s: string)
    ensures |WsRuns(s)| == |SplitWs(s)| - 1
    ensures Interleave(SplitWs(s), WsRuns(s)) == s
    decreases |s|
  {
    WsRunsAreRuns(s);
    if s == [] {
    } else if IsWs(s[0]) {
      var u := TrimStartWs(s);
      SplitWsTokenizes(u);
      WsRunsAreRuns(u);
      var run := s[..|s| - |u|];
      assert s == run + u;
      var r := SplitWs(s);
      var d := WsRuns(s);
      assert r == [""] + SplitWs(u) && d == [run] + WsRuns(u);
      assert r[1..] == SplitWs(u) && d[1..] == WsRuns(u);
      assert Interleave(r, d) == "" + run + Interleave(SplitWs(u), WsRuns(u));
    } else {
      var t := SplitWs(s[1..]);
      SplitWsTokenizes(s[1..]);
      WsRunsAreRuns(s[1..]);
      assert WsRuns(s) == WsRuns(s[1..]);
      InterleavePrepend([s[0]], t, WsRuns(s[1..]));
      assert s == [s[0]] + s[1..];
    }
  }

  /** The first field is empty exactly when `s` is empty or starts with whitespace. */
  lemma {:induction false} SplitWsFirstEmpty(s: string)
    ensures SplitWs(s)[0] == "" <==> s == [] || IsWs(s[0])
  {
  }

  lemma SplitWsUnfoldNoWs(s: string)
    requires s != [] && !IsWs(s[0])
    ensures var r, t := SplitWs(s), SplitWs(s[1..]);
      |r| == |t| && r[0] == [s[0]] + t[0] && r[1..] == t[1..]
  {
  }

  lemma SplitWsUnfoldWs(s: string)
    requires s != [] && IsWs(s[0])
    ensures var r, t := SplitWs(s), SplitWs(TrimStartWs(s));
      |r| == |t| + 1 && r[0] == "" && r[1..] == t
  {
  }

  /** The last field is empty exactly when `s` is empty or ends with whitespace. */
  lemma {:induction false} SplitWsLastEmpty(s: string)
    ensures LastFieldEmptyIff(s)
    decreases |s|
  {
    if s == [] {
    } else if IsWs(s[0]) {
      SplitWsLastEmpty(TrimStartWs(s));
      LastEmptyAfterRun(s);
    } else {
      SplitWsLastEmpty(s[1..]);
      LastEmptyAfterChar(s);
    }
  }

  predicate LastFieldEmptyIff(s: string) {
    var r := SplitWs(s); r[|r| - 1] == "" <==> s == [] || IsWs(s[|s| - 1])
  }

  lemma LastEmptyAfterRun(s: string)
    requires s != [] && IsWs(s[0]) && LastFieldEmptyIff(TrimStartWs(s))
    ensures LastFieldEmptyIff(s)
  {
    var u := TrimStartWs(s);
    SplitWsUnfoldWs(s);
    if u != [] {
      LastCharAfterRun(s, u);
    } else {
      RunOnly(s);
    }
  }

  lemma LastCharAfterRun(s: string, u: string)
    requires u == TrimStartWs(s) && u != []
    ensures s != [] && u[|u| - 1] == s[|s| - 1]
  {
    assert u == s[|s| - |u|..];
  }

  lemma RunOnly(s: string)
    requires s != [] && IsWs(s[0]) && TrimStartWs(s) == []
    ensures LastFieldEmptyIff(s)
  {
    SplitWsUnfoldWs(s);
    var r := SplitWs(s);
    assert SplitWs(TrimStartWs(s)) == [""];
    assert |r| == 2 && r[1] == "";
    var w := s[..|s| - |TrimStartWs(s)|];
    assert AllWs(w);
    assert w[|s| - 1] == s[|s| - 1];
  }

  lemma LastEmptyAfterChar(s: string)
    requires s != [] && !IsWs(s[0]) && LastFieldEmptyIff(s[1..])
    ensures LastFieldEmptyIff(s)
  {
    var r := SplitWs(s);
    var t := SplitWs(s[1..]);
    SplitWsUnfoldNoWs(s);
    assert r[|r| - 1] == if |t| == 1 then [s[0]] + t[0] else t[|t| - 1];
    if |s| == 1 {
      assert s[1..] == [];
    } else {
      assert s[1..][|s| - 2] == s[|s| - 1];
      if |t| == 1 {
        if IsWs(s[1]) {
          SplitWsUnfoldWs(s[1..]);
          assert false;
        }
        SplitWsFirstEmpty(s[1..]);
      }
    }
  }

  /** Fields strictly between the first and the last are never empty. */
  lemma {:induction false} SplitWsInnerNonEmpty(s: string)
    ensures forall k :: 0 < k < |SplitWs(s)| - 1 ==> SplitWs(s)[k] != ""
    decreases |s|
  {
    if s == [] {
    } else if IsWs(s[0]) {
      var u := TrimStartWs(s);
      SplitWsInnerNonEmpty(u);
      SplitWsFirstEmpty(u);
      var r := SplitWs(s);
      forall k | 0 < k < |r| - 1 ensures r[k] != "" {
        assert r[k] == SplitWs(u)[k - 1];
      }
    } else {
      SplitWsInnerNonEmpty(s[1..]);
      var t := SplitWs(s[1..]);
      var r := SplitWs(s);
      forall k | 0 < k < |r| - 1 ensures r[k] != "" {
        assert r[k] == t[k];
      }
    }
  }

  /** An empty field occurs exactly when `s` is empty, or starts or ends with
      whitespace. */
  lemma EmptyFieldIff(s: string)
    ensures "" in SplitWs(s) <==> s == [] || IsWs(s[0]) || IsWs(s[|s| - 1])
  {
    SplitWsFirstEmpty(s);
    SplitWsLastEmpty(s);
    SplitWsInnerNonEmpty(s);
    var r := SplitWs(s);
    if "" in r {
      var k :| 0 <= k < |r| && r[k] == "";
      assert k == 0 || k == |r| - 1;
    }
  }
}
