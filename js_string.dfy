/**
 * The three string built-ins that processText relies on, as ECMAScript
 * defines them: the white-space class shared by `\s` and
 * `String.prototype.trim`, `String.prototype.trim` itself,
 * `split('\n')` and `Array.prototype.join('\n')`.
 */
module JsString {

  /** ECMAScript WhiteSpace or LineTerminator: the set matched by `\s` and
      removed by `trim`. The space separators are listed as of Unicode 15. */
  predicate IsWs(c: char) {
    c in WsChars || '\U{2000}' <= c <= '\U{200A}'
  }

  /** TAB, LF, VT, FF, CR, SPACE, NBSP, OGHAM SPACE MARK, LINE SEPARATOR,
      PARAGRAPH SEPARATOR, NARROW NBSP, MEDIUM MATHEMATICAL SPACE,
      IDEOGRAPHIC SPACE and ZERO WIDTH NBSP; U+2000 to U+200A are the range
      in IsWs. */
  const WsChars: set<char> := {
    '\t', '\n', '\U{000B}', '\U{000C}', '\r', ' ', '\U{00A0}', '\U{1680}',
    '\U{2028}', '\U{2029}', '\U{202F}', '\U{205F}', '\U{3000}', '\U{FEFF}'
  }

  /** Every character of `s` is white space (vacuously true of ""). */
  predicate AllWs(s: string) {
    forall i :: 0 <= i < |s| ==> IsWs(s[i])
  }

  lemma AllWsAppend(a: string, b: string)
    ensures AllWs(a + b) <==> AllWs(a) && AllWs(b)
  {
    if AllWs(a) && AllWs(b) {
      forall i | 0 <= i < |a + b| ensures IsWs((a + b)[i]) {
        if i >= |a| { assert (a + b)[i] == b[i - |a|]; }
      }
    }
    if AllWs(a + b) {
      forall i | 0 <= i < |a| ensures IsWs(a[i]) {
        assert a[i] == (a + b)[i];
      }
      forall i | 0 <= i < |b| ensures IsWs(b[i]) {
        assert b[i] == (a + b)[|a| + i];
      }
    }
  }

  lemma AllWsSlice(s: string, i: nat, j: nat)
    requires i <= j <= |s| && AllWs(s)
    ensures AllWs(s[i..j])
  {
  }

  /** End of the longest run of white space in `s` that starts at `i`. */
  function WsRunEnd(s: string, i: nat): (k: nat)
    requires i <= |s|
    ensures i <= k <= |s| && AllWs(s[i..k])
    ensures k < |s| ==> !IsWs(s[k])
    decreases |s| - i
  {
    if i < |s| && IsWs(s[i]) then
      var k := WsRunEnd(s, i + 1);
      assert s[i..k] == [s[i]] + s[i + 1..k];
      k
    else i
  }

  /** Start of the longest run of white space in `s` that ends at `hi`,
      not going below `lo`. */
  function WsRunStart(s: string, lo: nat, hi: nat): (j: nat)
    requires lo <= hi <= |s|
    ensures lo <= j <= hi && AllWs(s[j..hi])
    ensures j > lo ==> !IsWs(s[j - 1])
    ensures lo < hi && !IsWs(s[lo]) ==> lo < j
    decreases hi - lo
  {
    if lo < hi && IsWs(s[hi - 1]) then
      var j := WsRunStart(s, lo, hi - 1);
      assert AllWs(s[j..hi]) by {
        forall m | 0 <= m < hi - j ensures IsWs(s[j..hi][m]) {
          if m < hi - 1 - j { assert s[j..hi][m] == s[j..hi - 1][m]; }
        }
      }
      j
    else hi
  }

  /** `String.prototype.trim`: the text between the leading and the
      trailing white space. */
  function Trim(s: string): string {
    var i := WsRunEnd(s, 0);
    s[i..WsRunStart(s, i, |s|)]
  }

  /** What `trim` returns: the slice of `s` between its leading and its
      trailing white space. It is empty exactly when `s` is all white space,
      and otherwise begins and ends with a non-white-space character. */
  lemma TrimSpec(s: string)
    ensures var r := Trim(s);
      && (exists i, j :: 0 <= i <= j <= |s| && r == s[i..j] && AllWs(s[..i]) && AllWs(s[j..]))
      && (r == [] <==> AllWs(s))
      && (r == [] || (!IsWs(r[0]) && !IsWs(r[|r| - 1])))
  {
    var i := WsRunEnd(s, 0);
    var j := WsRunStart(s, i, |s|);
    assert Trim(s) == s[i..j];
    assert s[..i] == s[0..i];
    assert s[0..|s|] == s;
  }

  /** A string that neither starts nor ends with white space is its own trim. */
  lemma TrimOfTrimmed(s: string)
    requires s == [] || (!IsWs(s[0]) && !IsWs(s[|s| - 1]))
    ensures Trim(s) == s
  {
  }

  /** `Array.prototype.join('\n')`: the lines with one newline between each
      two neighbours; the empty list joins to "". */
  function Join(lines: seq<string>): (r: string)
    decreases |lines|
  {
    if |lines| == 0 then ""
    else if |lines| == 1 then lines[0]
    else lines[0] + "\n" + Join(lines[1..])
  }

  /** `s.split('\n')`: the maximal newline-free pieces of `s`, in order.
      There is always at least one piece ("" splits to [""]) and no piece
      holds a newline. */
  function SplitLines(s: string): (r: seq<string>)
    ensures |r| >= 1
    ensures forall k :: 0 <= k < |r| ==> '\n' !in r[k]
    decreases |s|
  {
    if |s| == 0 then [""]
    else if s[0] == '\n' then [""] + SplitLines(s[1..])
    else
      var rest := SplitLines(s[1..]);
      [[s[0]] + rest[0]] + rest[1..]
  }

  /** Joining the pieces with '\n' gives `s` back. */
  lemma {:induction false} JoinOfSplitLines(s: string)
    ensures Join(SplitLines(s)) == s
    decreases |s|
  {
    if |s| > 0 {
      JoinOfSplitLines(s[1..]);
      var rest := SplitLines(s[1..]);
      assert s == [s[0]] + s[1..];
      if s[0] != '\n' && |rest| > 1 {
        var r := SplitLines(s);
        assert r[1..] == rest[1..];
      }
    }
  }

  /** The other half of the round trip: splitting a join of newline-free
      lines gives those lines back. */
  lemma {:induction false} SplitLinesOfJoin(lines: seq<string>)
    requires |lines| >= 1
    requires forall k :: 0 <= k < |lines| ==> '\n' !in lines[k]
    ensures SplitLines(Join(lines)) == lines
    decreases |lines|, |lines[0]|
  {
    var line := lines[0];
    if |line| == 0 {
      if |lines| > 1 {
        assert Join(lines) == "\n" + Join(lines[1..]);
        SplitLinesOfJoin(lines[1..]);
        assert SplitLines(Join(lines)) == [""] + lines[1..];
      }
    } else {
      var shorter := [line[1..]] + lines[1..];
      assert shorter[1..] == lines[1..];
      assert Join(lines) == [line[0]] + Join(shorter) by {
        assert line == [line[0]] + line[1..];
      }
      assert line[0] != '\n' by { assert line[0] in line; }
      assert forall k :: 0 <= k < |shorter| ==> '\n' !in shorter[k] by {
        forall k | 1 <= k < |shorter| ensures '\n' !in shorter[k] {
          assert shorter[k] == lines[k];
        }
      }
      SplitLinesOfJoin(shorter);
      var j := Join(lines);
      assert j[1..] == Join(shorter);
      assert [line[0]] + line[1..] == line;
    }
  }

  /** Joining a list in two parts around the newline that separates them. */
  lemma {:induction false} JoinSplitAt(lines: seq<string>, k: nat)
    requires 0 < k < |lines|
    ensures Join(lines) == Join(lines[..k]) + "\n" + Join(lines[k..])
    decreases k
  {
    if k > 1 {
      JoinSplitAt(lines[1..], k - 1);
      assert lines[1..][..k - 1] == lines[..k][1..];
      assert lines[1..][k - 1..] == lines[k..];
    } else {
      assert lines[..1] == [lines[0]];
      assert lines[1..] == lines[k..];
    }
  }

  /** A join is all white space exactly when every line is (the newline
      between lines is white space itself). */
  lemma {:induction false} JoinAllWs(lines: seq<string>)
    ensures AllWs(Join(lines)) <==> forall k :: 0 <= k < |lines| ==> AllWs(lines[k])
    decreases |lines|
  {
    if |lines| > 1 {
      JoinAllWs(lines[1..]);
      AllWsAppend(lines[0] + "\n", Join(lines[1..]));
      AllWsAppend(lines[0], "\n");
      assert forall k :: 1 <= k < |lines| ==> lines[k] == lines[1..][k - 1];
    }
  }
}
