/**
 * `text.split(/\n\s*\n/)`: the block split of processText, written as the
 * scan ECMAScript's `String.prototype[@@split]` performs. From the end `p`
 * of the last separator, the scan tries the pattern at each position `q`;
 * where it fails it moves on to `q + 1`, where it matches up to `e` it emits
 * the section `text[p..q]` and resumes at `e`. What follows the last match
 * is the last section.
 */
module SectionSplit {
  import opened JsString

  datatype Option<T> = None | Some(value: T)

  /** A string the pattern `\n\s*\n` matches as a whole: a newline, white
      space (which may include more newlines), and a newline. */
  predicate IsSeparator(t: string) {
    |t| >= 2 && t[0] == '\n' && t[|t| - 1] == '\n' && AllWs(t)
  }

  /** Some slice of `t` is matched by the pattern. */
  predicate ContainsSeparator(t: string) {
    exists i, j :: 0 <= i < j <= |t| && IsSeparator(t[i..j])
  }

  /** The position of the last newline in `s[lo..hi]`, if there is one. */
  function LastNewline(s: string, lo: nat, hi: nat): (r: Option<nat>)
    requires lo <= hi <= |s|
    ensures r.Some? ==> lo <= r.value < hi && s[r.value] == '\n'
    ensures r.Some? ==> forall m :: r.value < m < hi ==> s[m] != '\n'
    ensures r.None? ==> forall m :: lo <= m < hi ==> s[m] != '\n'
    decreases hi - lo
  {
    if hi <= lo then None
    else if s[hi - 1] == '\n' then Some(hi - 1)
    else LastNewline(s, lo, hi - 1)
  }

  /** The sticky match of `\n\s*\n` at `q`. Greedy `\s*` first takes the whole
      white-space run after the leading newline and then gives characters
      back until a newline follows, so the match ends just after the last
      newline of that run. The result is the end of the LONGEST separator
      that starts at `q`, and None when no separator starts there. */
  function MatchAt(s: string, q: nat): (r: Option<nat>)
    requires q < |s|
    ensures r.Some? ==> q + 2 <= r.value <= |s| && IsSeparator(s[q..r.value])
    ensures r.Some? ==> forall e :: r.value < e <= |s| ==> !IsSeparator(s[q..e])
    ensures r.None? ==> forall e :: q < e <= |s| ==> !IsSeparator(s[q..e])
  {
    if s[q] != '\n' then None
    else
      var k := WsRunEnd(s, q + 1);
      match LastNewline(s, q + 1, k)
      case None => None
      case Some(j) =>
        SeparatorBound(s, q, k, j + 1);
        Some(j + 1)
  }

  /** Given the white-space run `s[q + 1..k]` after a newline at `q`, the
      separators that start at `q` are exactly the slices that end just after
      a newline of that run. */
  lemma SeparatorBound(s: string, q: nat, k: nat, e: nat)
    requires q < |s| && s[q] == '\n'
    requires q + 1 <= k <= |s| && AllWs(s[q + 1..k]) && (k < |s| ==> !IsWs(s[k]))
    requires q + 2 <= e <= k && s[e - 1] == '\n'
    requires forall m :: e <= m < k ==> s[m] != '\n'
    ensures IsSeparator(s[q..e])
    ensures forall e' :: e < e' <= |s| ==> !IsSeparator(s[q..e'])
  {
    assert s[q + 1..k][..e - q - 1] == s[q + 1..e];
    AllWsSlice(s[q + 1..k], 0, e - q - 1);
    assert s[q..e] == [s[q]] + s[q + 1..e];
    AllWsAppend([s[q]], s[q + 1..e]);
    forall e' | e < e' <= |s| && IsSeparator(s[q..e']) ensures false {
      NoSeparatorPastRun(s, q, k, e');
    }
  }

  /** A separator that starts at `q` cannot leave the white-space run that
      follows `s[q]`. */
  lemma NoSeparatorPastRun(s: string, q: nat, k: nat, e: nat)
    requires q < k <= |s| && (k < |s| ==> !IsWs(s[k]))
    requires q < e <= |s| && IsSeparator(s[q..e])
    ensures e <= k
  {
  }

  /** The rest of the scan from `q`, the current section having started at
      `p`. The first component is the list of sections, the second the
      separators matched between them. */
  function SplitFrom(s: string, p: nat, q: nat): (r: (seq<string>, seq<string>))
    requires p <= q <= |s|
    ensures |r.0| == |r.1| + 1
    decreases |s| - q
  {
    if q == |s| then ([s[p..]], [])
    else
      match MatchAt(s, q)
      case None => SplitFrom(s, p, q + 1)
      case Some(e) =>
        var rest := SplitFrom(s, e, e);
        ([s[p..q]] + rest.0, [s[q..e]] + rest.1)
  }

  /** `text.split(/\n\s*\n/)`; the pattern cannot match the empty string, so
      "" splits to [""]. */
  function Split(text: string): (sections: seq<string>)
    ensures |sections| >= 1
  {
    SplitFrom(text, 0, 0).0
  }

  /** The separators the split removed, in order. */
  function Separators(text: string): (seps: seq<string>)
    ensures |seps| + 1 == |Split(text)|
  {
    SplitFrom(text, 0, 0).1
  }

  /** The sections with the separators put back between them. */
  function Interleave(sections: seq<string>, seps: seq<string>): string
    requires |sections| == |seps| + 1
    decreases |seps|
  {
    if |seps| == 0 then sections[0]
    else sections[0] + seps[0] + Interleave(sections[1..], seps[1..])
  }

  /** No newline of `t` has only white space after it. */
  predicate NoNewlineInTrailingWs(t: string) {
    forall k :: 0 <= k < |t| && t[k] == '\n' ==> exists m :: k < m < |t| && !IsWs(t[m])
  }

  /** No newline of `t` has only white space before it. */
  predicate NoNewlineInLeadingWs(t: string) {
    forall k :: 0 <= k < |t| && t[k] == '\n' ==> exists m :: 0 <= m < k && !IsWs(t[m])
  }

  /** What a scan of `rest` produces: putting the separators back between
      the sections rebuilds `rest`; the first section is a prefix of it;
      every separator is a match; no section holds one; the section before
      each separator has no newline followed only by white space, and the
      section after it none preceded only by white space; and a section
      between two separators is never all white space. */
  predicate Scanned(rest: string, sections: seq<string>, seps: seq<string>) {
    && |sections| == |seps| + 1
    && Interleave(sections, seps) == rest
    && sections[0] <= rest
    && (forall k :: 0 <= k < |seps| ==> IsSeparator(seps[k]))
    && (forall k :: 0 <= k < |sections| ==> !ContainsSeparator(sections[k]))
    && (forall k :: 0 <= k < |seps| ==> NoNewlineInTrailingWs(sections[k]))
    && (forall k :: 1 <= k < |sections| ==> NoNewlineInLeadingWs(sections[k]))
    && (forall k :: 1 <= k < |seps| ==> !AllWs(sections[k]))
  }

  /** What one scan from `q` produces, the section having started at `p`
      with no match in `s[p..q]`. */
  lemma {:induction false} SplitFromSpec(s: string, p: nat, q: nat)
    requires p <= q <= |s|
    requires forall m :: p <= m < q ==> MatchAt(s, m).None?
    ensures var r := SplitFrom(s, p, q); Scanned(s[p..], r.0, r.1)
    decreases |s| - q
  {
    if q == |s| {
      NoMatchNoSeparator(s, p, q);
      assert s[p..q] == s[p..];
    } else {
      match MatchAt(s, q)
      case None =>
        SplitFromSpec(s, p, q + 1);
      case Some(e) =>
        var rest := SplitFrom(s, e, e);
        SplitFromSpec(s, e, e);
        assert SplitFrom(s, p, q) == ([s[p..q]] + rest.0, [s[q..e]] + rest.1);
        assert s[p..] == s[p..q] + s[q..e] + s[e..];
        NoMatchNoSeparator(s, p, q);
        Leftmost(s, p, q, e);
        Greedy(s, q, e, rest.0[0]);
        if |rest.1| > 0 {
          InterleaveHead(rest.0, rest.1);
          NextSectionNotBlank(s, q, e, rest.0[0], rest.1[0]);
        }
        ConsSection(s[p..q], s[q..e], rest.0, rest.1, s[e..]);
    }
  }

  /** Putting one more section and separator in front of a scan result
      keeps its properties. */
  lemma ConsSection(a: string, b: string, sections: seq<string>, seps: seq<string>, rest: string)
    requires Scanned(rest, sections, seps)
    requires IsSeparator(b) && !ContainsSeparator(a)
    requires NoNewlineInTrailingWs(a) && NoNewlineInLeadingWs(sections[0])
    requires |seps| > 0 ==> !AllWs(sections[0])
    ensures Scanned(a + b + rest, [a] + sections, [b] + seps)
  {
    var r0, r1 := [a] + sections, [b] + seps;
    assert r0[1..] == sections && r1[1..] == seps;
    forall k | 1 <= k < |r0| ensures r0[k] == sections[k - 1] {
    }
    forall k | 1 <= k < |r1| ensures r1[k] == seps[k - 1] {
    }
  }

  /** The first section and separator open the interleaving. */
  lemma InterleaveHead(sections: seq<string>, seps: seq<string>)
    requires |sections| == |seps| + 1 && |seps| > 0
    ensures sections[0] + seps[0] <= Interleave(sections, seps)
  {
    var tail := Interleave(sections[1..], seps[1..]);
    assert Interleave(sections, seps) == sections[0] + seps[0] + tail;
  }

  /** A section that follows a match and ends where the next separator
      starts is not all white space: the white-space run the match ended in
      holds no later newline, so it stops at a non-white-space character
      before the next separator's newline. That character is the witness. */
  lemma NextSectionNotBlank(s: string, q: nat, e: nat, next: string, sep: string)
    requires q < e <= |s| && MatchAt(s, q) == Some(e)
    requires next + sep <= s[e..] && |sep| > 0 && sep[0] == '\n'
    ensures !AllWs(next)
  {
    var run := WsRunEnd(s, q + 1);
    assert LastNewline(s, q + 1, run) == Some(e - 1);
    assert (next + sep)[|next|] == s[e + |next|];
    assert e <= run <= e + |next|;
    assert next[run - e] == (next + sep)[run - e] == s[run];
  }

  /** A section the scan passed over without a match holds no separator. */
  lemma NoMatchNoSeparator(s: string, p: nat, q: nat)
    requires p <= q <= |s|
    requires forall m :: p <= m < q ==> MatchAt(s, m).None?
    ensures !ContainsSeparator(s[p..q])
  {
    forall i, j | 0 <= i < j <= q - p ensures !IsSeparator(s[p..q][i..j]) {
      var t := s[p..q];
      assert |t[i..j]| == j - i;
      forall m | 0 <= m < j - i ensures t[i..j][m] == s[p + i + m] {
        assert t[i + m] == s[p + i + m];
      }
      assert t[i..j] == s[p + i..p + j];
      assert MatchAt(s, p + i).None?;
    }
  }

  /** The section before a match has no newline that only white space
      follows: otherwise the pattern would have matched there, earlier.
      The witness is where the white-space run after that newline ends. */
  lemma Leftmost(s: string, p: nat, q: nat, e: nat)
    requires p <= q < e <= |s| && IsSeparator(s[q..e])
    requires forall m :: p <= m < q ==> MatchAt(s, m).None?
    ensures NoNewlineInTrailingWs(s[p..q])
  {
    var t := s[p..q];
    forall k | 0 <= k < |t| && t[k] == '\n' ensures exists m :: k < m < |t| && !IsWs(t[m]) {
      assert MatchAt(s, p + k).None?;
      var run := WsRunEnd(s, p + k + 1);
      assert s[q] == s[q..e][0];
      assert LastNewline(s, p + k + 1, run).None?;
      assert run < q;
      assert t[run - p] == s[run];
    }
  }

  /** The section after a match has no newline that only white space
      precedes: otherwise the greedy match would have extended to it.
      The witness is where the white-space run after `s[q]` ends. */
  lemma Greedy(s: string, q: nat, e: nat, next: string)
    requires q < e <= |s| && MatchAt(s, q) == Some(e)
    requires next <= s[e..]
    ensures NoNewlineInLeadingWs(next)
  {
    var run := WsRunEnd(s, q + 1);
    assert LastNewline(s, q + 1, run) == Some(e - 1);
    forall k | 0 <= k < |next| && next[k] == '\n' ensures exists m :: 0 <= m < k && !IsWs(next[m]) {
      assert next[k] == s[e + k];
      assert run <= e + k;
      assert next[run - e] == s[run];
    }
  }

  /** The block split, as the scan produces it: putting the separators back
      between the sections rebuilds the text; there is one section more than
      separators; every separator is a match of `\n\s*\n`; no section holds
      one; and each separator is leftmost (the section before it has no
      newline followed by white space only) and longest (the section after
      it has no newline preceded by white space only, and a section between
      two separators is not all white space, so no two separators could
      have been one). */
  lemma SplitSpec(text: string)
    ensures var sections, seps := Split(text), Separators(text);
      && |sections| == |seps| + 1
      && Interleave(sections, seps) == text
      && (forall k :: 0 <= k < |seps| ==> IsSeparator(seps[k]))
      && (forall k :: 0 <= k < |sections| ==> !ContainsSeparator(sections[k]))
      && (forall k :: 0 <= k < |seps| ==> NoNewlineInTrailingWs(sections[k]))
      && (forall k :: 1 <= k < |sections| ==> NoNewlineInLeadingWs(sections[k]))
      && (forall k :: 1 <= k < |seps| ==> !AllWs(sections[k]))
  {
    SplitFromSpec(text, 0, 0);
    assert text[0..] == text;
  }

  /** The empty text is one empty section. */
  lemma SplitEmpty()
    ensures Split("") == [""]
  {
  }

  /** A run of four newlines is one separator, not two: the greedy match at
      0 takes the whole run, leaving two empty sections. */
  lemma GreedyRunExample()
    ensures Split("\n\n\n\n") == ["", ""]
    ensures Separators("\n\n\n\n") == ["\n\n\n\n"]
  {
    var s := "\n\n\n\n";
    assert WsRunEnd(s, 4) == 4;
    assert WsRunEnd(s, 1) == 4;
    assert LastNewline(s, 1, 4) == Some(3);
    assert MatchAt(s, 0) == Some(4);
    assert |s| == 4 && s[4..] == "";
    assert SplitFrom(s, 4, 4) == ([""], []);
    var rest := SplitFrom(s, 4, 4);
    assert SplitFrom(s, 0, 0) == ([s[0..0]] + rest.0, [s[0..4]] + rest.1);
    assert s[0..0] == "" && s[0..4] == s;
  }

  /** Each section of an all-white-space text is all white space. */
  lemma {:induction false} InterleaveAllWs(sections: seq<string>, seps: seq<string>)
    requires |sections| == |seps| + 1
    requires AllWs(Interleave(sections, seps))
    ensures forall k :: 0 <= k < |sections| ==> AllWs(sections[k])
    decreases |seps|
  {
    if |seps| > 0 {
      var tail := Interleave(sections[1..], seps[1..]);
      AllWsAppend(sections[0] + seps[0], tail);
      AllWsAppend(sections[0], seps[0]);
      InterleaveAllWs(sections[1..], seps[1..]);
      assert forall k :: 1 <= k < |sections| ==> sections[k] == sections[1..][k - 1];
    }
  }

  /** Every newline of `t` is directly followed, inside `t`, by a character
      that is not white space: `t` holds no blank line and does not end
      with a newline. */
  predicate LooseLines(t: string) {
    forall m :: 0 <= m < |t| && t[m] == '\n' ==> m + 1 < |t| && !IsWs(t[m + 1])
  }

  /** No match starts at a character other than a newline, nor at a newline
      followed by a non-white-space character. */
  lemma NoMatchAtLoose(s: string, m: nat)
    requires m < |s|
    requires s[m] != '\n' || (m + 1 < |s| && !IsWs(s[m + 1]))
    ensures MatchAt(s, m) == None
  {
    if s[m] == '\n' {
      assert WsRunEnd(s, m + 1) == m + 1;
    }
  }

  /** Positions where no match starts are stepped over. */
  lemma {:induction false} SplitFromSkip(s: string, p: nat, q: nat, r: nat)
    requires p <= q <= r <= |s|
    requires forall m :: q <= m < r ==> MatchAt(s, m) == None
    ensures SplitFrom(s, p, q) == SplitFrom(s, p, r)
    decreases r - q
  {
    if q < r {
      SplitFromSkip(s, p, q + 1, r);
    }
  }

  /** A text that is two loose blocks joined by one empty line splits into
      exactly those two blocks, the empty line being the one separator. */
  lemma SplitTwoSections(x: string, y: string)
    requires LooseLines(x) && LooseLines(y)
    requires y == [] || !IsWs(y[0])
    ensures Split(x + "\n\n" + y) == [x, y]
    ensures Separators(x + "\n\n" + y) == ["\n\n"]
  {
    var s := x + "\n\n" + y;
    var e := |x| + 2;
    forall m | 0 <= m < |x| ensures MatchAt(s, m) == None {
      assert s[m] == x[m];
      if m + 1 < |x| { assert s[m + 1] == x[m + 1]; }
      NoMatchAtLoose(s, m);
    }
    SplitFromSkip(s, 0, 0, |x|);
    assert s[|x|] == '\n' && s[|x| + 1] == '\n';
    if y != [] { assert s[e] == y[0]; }
    assert WsRunEnd(s, e) == e;
    assert WsRunEnd(s, |x| + 1) == e;
    assert LastNewline(s, |x| + 1, e) == Some(|x| + 1);
    assert MatchAt(s, |x|) == Some(e);
    forall m | e <= m < |s| ensures MatchAt(s, m) == None {
      assert s[m] == y[m - e];
      if m + 1 < |s| { assert s[m + 1] == y[m + 1 - e]; }
      NoMatchAtLoose(s, m);
    }
    SplitFromSkip(s, e, e, |s|);
    assert s[0..|x|] == x && s[|x|..e] == "\n\n" && s[e..] == y;
  }
}
