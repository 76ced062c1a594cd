/**
 * The two patterns tracer/tracer.py applies to each line of `tracert`
 * output: `IP_REGEX`, four dot-separated runs of one to three digits, and
 * `TIMEOUT_REGEX`, three asterisks on one line.
 */
module TraceRegex {
  import opened Wrappers

  /** `\d`: a decimal digit (the cp866 code page has no digits outside ASCII). */
  predicate IsDigit(c: char)
  {
    '0' <= c <= '9'
  }

  /** One `\d{1,3}` group of a dotted quad, as a string on its own. */
  predicate DigitGroup(t: string)
  {
    1 <= |t| <= 3 && forall k :: 0 <= k < |t| ==> IsDigit(t[k])
  }

  /** `t` splits at the dots `a`, `b`, `c` into four digit groups. */
  predicate QuadSplit(t: string, a: int, b: int, c: int)
  {
    0 <= a < b < c < |t| && t[a] == '.' && t[b] == '.' && t[c] == '.'
    && DigitGroup(t[..a]) && DigitGroup(t[a + 1..b]) && DigitGroup(t[b + 1..c]) && DigitGroup(t[c + 1..])
  }

  /** What `IP_REGEX` matches in full: four groups of one to three digits joined by dots, values unchecked. */
  ghost predicate IsDottedQuad(t: string)
  {
    exists a, b, c :: QuadSplit(t, a, b, c)
  }

  /** The number of consecutive digits of `s` from position `i`. */
  function DigitRun(s: string, i: nat): (n: nat)
    requires i <= |s|
    ensures i + n <= |s|
    ensures forall k :: i <= k < i + n ==> IsDigit(s[k])
    ensures i + n == |s| || !IsDigit(s[i + n])
    decreases |s| - i
  {
    if i < |s| && IsDigit(s[i]) then 1 + DigitRun(s, i + 1) else 0
  }

  /**
   * `\d{1,3}\.` at position `i`: the greedy repetition backs off to the one
   * count a dot can follow, which is the whole digit run when it is 1 to 3
   * long; the result is the position after the dot.
   */
  function DotGroup(s: string, i: nat): (r: Option<nat>)
    requires i <= |s|
    ensures r.Some? ==> i < r.value <= |s|
  {
    var n := DigitRun(s, i);
    if 1 <= n <= 3 && i + n < |s| && s[i + n] == '.' then Some(i + n + 1) else None
  }

  /** `IP_REGEX` anchored at `i`: the end of the match, the last group taking as many digits as it may. */
  function MatchIpAt(s: string, i: nat): (r: Option<nat>)
    requires i <= |s|
    ensures r.Some? ==> i < r.value <= |s|
  {
    match DotGroup(s, i)
    case None => None
    case Some(a) =>
      match DotGroup(s, a)
      case None => None
      case Some(b) =>
        match DotGroup(s, b)
        case None => None
        case Some(c) =>
          var n := DigitRun(s, c);
          if n == 0 then None else Some(c + (if n < 3 then n else 3))
  }

  /** The leftmost match at or after `i`, as start and end positions. */
  function SearchFrom(s: string, i: nat): (r: Option<(nat, nat)>)
    requires i <= |s|
    ensures r.Some? ==> i <= r.value.0 < r.value.1 <= |s|
    decreases |s| - i
  {
    match MatchIpAt(s, i)
    case Some(j) => Some((i, j))
    case None => if i == |s| then None else SearchFrom(s, i + 1)
  }

  /** `IP_REGEX.search(line).group("IP")`, or nothing when the line has no match. */
  function SearchIp(s: string): Option<string>
  {
    match SearchFrom(s, 0)
    case None => None
    case Some((i, j)) => Some(s[i..j])
  }

  /** `s[lo..hi]` is one digit group, stated on positions of `s`. */
  predicate GroupAt(s: string, lo: int, hi: int)
  {
    0 <= lo && lo + 1 <= hi <= lo + 3 && hi <= |s| && forall k :: lo <= k < hi ==> IsDigit(s[k])
  }

  /** A slice of a slice is a digit group exactly when the positions it covers in `s` form one. */
  lemma GroupSlice(s: string, i: nat, j: nat, lo: nat, hi: nat)
    requires i <= j <= |s| && lo <= hi <= j - i
    ensures DigitGroup(s[i..j][lo..hi]) <==> GroupAt(s, i + lo, i + hi)
  {
    var g := s[i..j][lo..hi];
    assert forall k :: 0 <= k < hi - lo ==> g[k] == s[i + lo + k];
    if GroupAt(s, i + lo, i + hi) {
      forall k | 0 <= k < |g| ensures IsDigit(g[k]) {
        assert g[k] == s[i + lo + k];
      }
      assert DigitGroup(g);
    }
    if DigitGroup(g) {
      forall k | i + lo <= k < i + hi ensures IsDigit(s[k]) {
        assert s[k] == g[k - i - lo];
      }
    }
  }

  /** `QuadSplit` of `s[i..j]`, stated on positions of `s`: dots at `a`, `b`, `c`. */
  predicate QuadAt(s: string, i: int, a: int, b: int, c: int, j: int)
  {
    i <= a && j <= |s| && a < |s| && b < |s| && c < |s|
    && GroupAt(s, i, a) && s[a] == '.' && GroupAt(s, a + 1, b) && s[b] == '.'
    && GroupAt(s, b + 1, c) && s[c] == '.' && GroupAt(s, c + 1, j)
  }

  lemma QuadSplitAt(s: string, i: nat, j: nat, a: int, b: int, c: int)
    requires i <= j <= |s|
    ensures QuadSplit(s[i..j], a, b, c) <==> QuadAt(s, i, i + a, i + b, i + c, j)
  {
    var t := s[i..j];
    if 0 <= a < b < c < |t| {
      assert t[..a] == t[0..a] && t[c + 1..] == t[c + 1..|t|];
      GroupSlice(s, i, j, 0, a);
      GroupSlice(s, i, j, a + 1, b);
      GroupSlice(s, i, j, b + 1, c);
      GroupSlice(s, i, j, c + 1, j - i);
      assert t[a] == s[i + a] && t[b] == s[i + b] && t[c] == s[i + c];
    }
  }

  /** A digit group followed by a dot is found by `DotGroup`, and only such a group is. */
  lemma DotGroupSpec(s: string, i: nat, a: nat)
    requires i < a < |s|
    ensures DotGroup(s, i) == Some(a + 1) <==> GroupAt(s, i, a) && s[a] == '.'
  {
  }

  /** What `DotGroup` finds is a digit group followed by a dot. */
  lemma DotGroupFound(s: string, i: nat)
    requires i <= |s| && DotGroup(s, i).Some?
    ensures GroupAt(s, i, DotGroup(s, i).value - 1) && s[DotGroup(s, i).value - 1] == '.'
  {
  }

  /** The greedy last group: one to three digits from `c`. */
  lemma LastGroup(s: string, c: nat, j: nat)
    requires c <= |s| && DigitRun(s, c) >= 1
    requires j == c + (if DigitRun(s, c) < 3 then DigitRun(s, c) else 3)
    ensures GroupAt(s, c, j)
  {
  }

  /** A digit group ending at `j` is no longer than the greedy last group. */
  lemma LastGroupLongest(s: string, start: nat, j: nat)
    requires GroupAt(s, start, j)
    ensures DigitRun(s, start) >= 1
    ensures j <= start + (if DigitRun(s, start) < 3 then DigitRun(s, start) else 3)
  {
  }

  /** Three dot groups in a row and a digit after them make a match. */
  lemma MatchFromGroups(s: string, i: nat, a: nat, b: nat, c: nat)
    requires i <= a <= b <= c <= |s|
    requires DotGroup(s, i) == Some(a) && DotGroup(s, a) == Some(b) && DotGroup(s, b) == Some(c)
    requires DigitRun(s, c) >= 1
    ensures MatchIpAt(s, i) == Some(c + (if DigitRun(s, c) < 3 then DigitRun(s, c) else 3))
  {
  }

  /** The dots of a match of `IP_REGEX`, as positions of `s`. */
  lemma MatchDots(s: string, i: nat) returns (a: nat, b: nat, c: nat)
    requires i <= |s| && MatchIpAt(s, i).Some?
    ensures QuadAt(s, i, a, b, c, MatchIpAt(s, i).value)
  {
    MatchIpAtUnfold(s, i);
    var a1 := DotGroup(s, i).value;
    var b1 := DotGroup(s, a1).value;
    var c1 := DotGroup(s, b1).value;
    DotGroupFound(s, i);
    DotGroupFound(s, a1);
    DotGroupFound(s, b1);
    LastGroup(s, c1, MatchIpAt(s, i).value);
    a, b, c := a1 - 1, b1 - 1, c1 - 1;
  }

  /** A match is three dot groups in a row and the greedy last group. */
  lemma MatchIpAtUnfold(s: string, i: nat)
    requires i <= |s| && MatchIpAt(s, i).Some?
    ensures DotGroup(s, i).Some? && DotGroup(s, DotGroup(s, i).value).Some?
    ensures DotGroup(s, DotGroup(s, DotGroup(s, i).value).value).Some?
    ensures var c := DotGroup(s, DotGroup(s, DotGroup(s, i).value).value).value;
      DigitRun(s, c) >= 1 && MatchIpAt(s, i).value == c + (if DigitRun(s, c) < 3 then DigitRun(s, c) else 3)
  {
  }

  /** Every match of `IP_REGEX` is a dotted quad. */
  lemma {:induction false} MatchIsDottedQuad(s: string, i: nat)
    requires i <= |s| && MatchIpAt(s, i).Some?
    ensures IsDottedQuad(s[i..MatchIpAt(s, i).value])
  {
    var j := MatchIpAt(s, i).value;
    var a, b, c := MatchDots(s, i);
    QuadSplitAt(s, i, j, a - i, b - i, c - i);
  }

  /**
   * Wherever a dotted quad starts, `IP_REGEX` matches there, and its match
   * is at least as long: the match at `i` is the longest dotted quad at `i`.
   */
  lemma {:induction false} MatchIsLongest(s: string, i: nat, j: nat)
    requires i <= j <= |s| && IsDottedQuad(s[i..j])
    ensures MatchIpAt(s, i).Some? && j <= MatchIpAt(s, i).value
  {
    var a, b, c :| QuadSplit(s[i..j], a, b, c);
    QuadSplitAt(s, i, j, a, b, c);
    QuadAtMatches(s, i, i + a, i + b, i + c, j);
  }

  /** The positional form of `MatchIsLongest`. */
  lemma QuadAtMatches(s: string, i: nat, a: nat, b: nat, c: nat, j: nat)
    requires QuadAt(s, i, a, b, c, j)
    ensures MatchIpAt(s, i).Some? && j <= MatchIpAt(s, i).value
  {
    DotGroupSpec(s, i, a);
    DotGroupSpec(s, a + 1, b);
    DotGroupSpec(s, b + 1, c);
    LastGroupLongest(s, c + 1, j);
    MatchFromGroups(s, i, a + 1, b + 1, c + 1);
  }

  /** No dotted quad starts at `p`. */
  ghost predicate NoQuadAt(s: string, p: int)
  {
    forall q :: 0 <= p <= q <= |s| ==> !IsDottedQuad(s[p..q])
  }

  /** No dotted quad starts anywhere in `lo..hi`. */
  ghost predicate NoQuadIn(s: string, lo: int, hi: int)
  {
    forall p :: lo <= p < hi && 0 <= p ==> NoQuadAt(s, p)
  }

  /** `SearchFrom` finds the first position from `i` on where a dotted quad starts. */
  lemma {:induction false} SearchFromSpec(s: string, i: nat)
    requires i <= |s|
    ensures SearchFrom(s, i).Some? ==>
      MatchIpAt(s, SearchFrom(s, i).value.0) == Some(SearchFrom(s, i).value.1)
      && NoQuadIn(s, i, SearchFrom(s, i).value.0)
    ensures SearchFrom(s, i).None? ==> NoQuadIn(s, i, |s| + 1)
    decreases |s| - i
  {
    if MatchIpAt(s, i).None? {
      NoMatchNoQuad(s, i);
      if i < |s| {
        SearchFromSpec(s, i + 1);
        var r := SearchFrom(s, i + 1);
        assert SearchFrom(s, i) == r;
        NoQuadInExtend(s, i, if r.Some? then r.value.0 else |s| + 1);
      } else {
        NoQuadInExtend(s, i, |s| + 1);
      }
    }
  }

  /** The positions with no dotted quad extend one step to the left. */
  lemma NoQuadInExtend(s: string, i: nat, hi: int)
    requires NoQuadAt(s, i) && NoQuadIn(s, i + 1, hi)
    ensures NoQuadIn(s, i, hi)
  {
  }

  /** Where `IP_REGEX` does not match, no dotted quad starts. */
  lemma NoMatchNoQuad(s: string, i: nat)
    requires i <= |s| && MatchIpAt(s, i).None?
    ensures NoQuadAt(s, i)
  {
    forall q | i <= q <= |s| ensures !IsDottedQuad(s[i..q]) {
      if IsDottedQuad(s[i..q]) {
        MatchIsLongest(s, i, q);
      }
    }
  }

  /** `s[p..q]` is a dotted quad, none is longer at `p`, and none starts before `p`. */
  ghost predicate LeftmostLongest(s: string, p: int, q: int)
  {
    0 <= p < q <= |s| && IsDottedQuad(s[p..q])
    && (forall q' :: q < q' <= |s| ==> !IsDottedQuad(s[p..q']))
    && (forall p', q' :: 0 <= p' < p && p' <= q' <= |s| ==> !IsDottedQuad(s[p'..q']))
  }

  /**
   * `IP_REGEX.search`: the result is the longest dotted quad at the leftmost
   * position where one starts, and there is none exactly when no part of the
   * line is a dotted quad.
   */
  lemma {:induction false} SearchIpSpec(s: string)
    ensures SearchIp(s).Some? ==>
      exists p, q :: LeftmostLongest(s, p, q) && SearchIp(s).value == s[p..q]
    ensures SearchIp(s).None? <==> forall p, q :: 0 <= p <= q <= |s| ==> !IsDottedQuad(s[p..q])
  {
    SearchFromSpec(s, 0);
    if SearchFrom(s, 0).Some? {
      var (p, q) := SearchFrom(s, 0).value;
      MatchIsDottedQuad(s, p);
      forall q' | q < q' <= |s| ensures !IsDottedQuad(s[p..q']) {
        if IsDottedQuad(s[p..q']) {
          MatchIsLongest(s, p, q');
        }
      }
      forall p', q' | 0 <= p' < p && p' <= q' <= |s| ensures !IsDottedQuad(s[p'..q']) {
        assert NoQuadAt(s, p');
      }
      assert LeftmostLongest(s, p, q);
    } else {
      forall p, q | 0 <= p <= q <= |s| ensures !IsDottedQuad(s[p..q]) {
        assert NoQuadAt(s, p);
      }
    }
  }

  /** `n` asterisks. */
  function Stars(n: nat): (r: string)
    ensures |r| == n && forall k :: 0 <= k < n ==> r[k] == '*'
  {
    seq(n, _ => '*')
  }

  /** No line break in `s[lo..hi]` (the `.` of a pattern does not cross one). */
  predicate NoNewline(s: string, lo: int, hi: int)
  {
    forall k :: lo <= k < hi && 0 <= k < |s| ==> s[k] != '\n'
  }

  /** Asterisks at `i < j < k`, on one line. */
  predicate StarsAt(s: string, i: int, j: int, k: int)
  {
    0 <= i < j < k < |s| && s[i] == '*' && s[j] == '*' && s[k] == '*' && NoNewline(s, i, k)
  }

  /** What `TIMEOUT_REGEX.search` looks for: three asterisks with no line break between them. */
  ghost predicate StarTriple(s: string)
  {
    exists i, j, k :: StarsAt(s, i, j, k)
  }

  /** The scan behind `TIMEOUT_REGEX.search`: `seen` asterisks already met since the last line break. */
  function TimeoutFrom(s: string, i: nat, seen: nat): bool
    requires i <= |s| && seen <= 2
    decreases |s| - i
  {
    if i == |s| then false
    else if s[i] == '\n' then TimeoutFrom(s, i + 1, 0)
    else if s[i] == '*' then seen == 2 || TimeoutFrom(s, i + 1, seen + 1)
    else TimeoutFrom(s, i + 1, seen)
  }

  /** `TIMEOUT_REGEX.search(line)` is truthy. */
  function HasTimeout(s: string): bool
  {
    TimeoutFrom(s, 0, 0)
  }

  /** A line break separates: no triple straddles it, and none fits in the at most two asterisks before it. */
  lemma NewlineResets(seen: nat, rest: string)
    requires seen <= 2
    ensures StarTriple(Stars(seen) + "\n" + rest) <==> StarTriple(rest)
  {
    var t := Stars(seen) + "\n" + rest;
    var d := seen + 1;
    assert t[seen] == '\n';
    if StarTriple(t) {
      var i, j, k :| StarsAt(t, i, j, k);
      assert forall x :: 0 <= x < |rest| ==> t[x + d] == rest[x];
      assert StarsAt(rest, i - d, j - d, k - d);
    }
    if StarTriple(rest) {
      var i, j, k :| StarsAt(rest, i, j, k);
      assert t[i + d] == rest[i] && t[j + d] == rest[j] && t[k + d] == rest[k];
      assert StarsAt(t, i + d, j + d, k + d);
    }
  }

  /** A character that is neither an asterisk nor a line break does not matter. */
  lemma OtherCharIgnored(seen: nat, c: char, rest: string)
    requires seen <= 2 && c != '*' && c != '\n'
    ensures StarTriple(Stars(seen) + [c] + rest) <==> StarTriple(Stars(seen) + rest)
  {
    var t := Stars(seen) + [c] + rest;
    var u := Stars(seen) + rest;
    assert forall x :: 0 <= x < seen ==> t[x] == u[x];
    assert forall x :: seen < x < |t| ==> t[x] == u[x - 1];
    if StarTriple(t) {
      var i, j, k :| StarsAt(t, i, j, k);
      var i', j', k' := if i < seen then i else i - 1, if j < seen then j else j - 1, k - 1;
      assert i != seen && j != seen && k != seen;
      assert NoNewline(u, i', k') by {
        forall x | i' <= x < k' && 0 <= x < |u| ensures u[x] != '\n' {
          if x < seen {
            assert u[x] == t[x];
          } else {
            assert u[x] == t[x + 1];
          }
        }
      }
      assert StarsAt(u, i', j', k');
    }
    if StarTriple(u) {
      var i, j, k :| StarsAt(u, i, j, k);
      var i', j', k' := if i < seen then i else i + 1, if j < seen then j else j + 1, if k < seen then k else k + 1;
      assert NoNewline(t, i', k') by {
        forall x | i' <= x < k' && 0 <= x < |t| ensures t[x] != '\n' {
          if x < seen {
            assert u[x] == t[x];
          } else if x > seen {
            assert u[x - 1] == t[x];
          }
        }
      }
      assert StarsAt(t, i', j', k');
    }
  }

  /** The scan from `i`, having met `seen` asterisks, finds a triple in what remains after those asterisks. */
  lemma {:induction false} TimeoutFromSpec(s: string, i: nat, seen: nat)
    requires i <= |s| && seen <= 2
    ensures TimeoutFrom(s, i, seen) <==> StarTriple(Stars(seen) + s[i..])
    decreases |s| - i
  {
    var t := Stars(seen) + s[i..];
    if i == |s| {
      assert t == Stars(seen);
    } else {
      var rest := s[i + 1..];
      assert s[i..] == [s[i]] + rest;
      if s[i] == '\n' {
        assert t == Stars(seen) + "\n" + rest;
        NewlineResets(seen, rest);
        TimeoutFromSpec(s, i + 1, 0);
        assert Stars(0) + rest == rest;
      } else if s[i] == '*' {
        assert t == Stars(seen + 1) + rest;
        if seen == 2 {
          assert StarsAt(t, 0, 1, 2);
        } else {
          TimeoutFromSpec(s, i + 1, seen + 1);
        }
      } else {
        assert t == Stars(seen) + [s[i]] + rest;
        OtherCharIgnored(seen, s[i], rest);
        TimeoutFromSpec(s, i + 1, seen);
      }
    }
  }

  /** `TIMEOUT_REGEX.search` succeeds exactly when three asterisks stand on one line. */
  lemma {:induction false} HasTimeoutSpec(s: string)
    ensures HasTimeout(s) <==> StarTriple(s)
  {
    TimeoutFromSpec(s, 0, 0);
    assert Stars(0) + s[0..] == s;
  }
}
