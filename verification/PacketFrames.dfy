/**
 The frame list of a packet log line: the braced payload is cut out of the line
 and split at " | " separators that are not inside brackets.
 */
module PacketFrames {
  import opened Wrappers

  /** White space as `str.strip` understands it. */
  predicate IsSpace(c: char) {
    var n := c as int;
    || 0x09 <= n <= 0x0d || 0x1c <= n <= 0x20 || n == 0x85 || n == 0xa0 || n == 0x1680
    || 0x2000 <= n <= 0x200a || n == 0x2028 || n == 0x2029 || n == 0x202f || n == 0x205f || n == 0x3000
  }

  function StripLeft(s: string): (r: string)
    ensures r == "" || !IsSpace(r[0])
    ensures |r| <= |s|
  {
    if s != "" && IsSpace(s[0]) then StripLeft(s[1..]) else s
  }

  function StripRight(s: string): (r: string)
    ensures r == "" || !IsSpace(r[|r| - 1])
    ensures |r| <= |s| && r == s[..|r|]
  {
    if s != "" && IsSpace(s[|s| - 1]) then StripRight(s[..|s| - 1]) else s
  }

  function Strip(s: string): (r: string)
    ensures |r| <= |s|
  {
    StripRight(StripLeft(s))
  }

  // ----- split_frames -----

  predicate AtSeparator(s: string) {
    |s| >= 3 && s[0] == ' ' && s[1] == '|' && s[2] == ' '
  }

  function Deeper(depth: nat, c: char): nat {
    if c == '{' || c == '(' then depth + 1
    else if (c == ')' || c == '}') && depth > 0 then depth - 1
    else depth
  }

  function Emit(current: string): seq<string> {
    if Strip(current) == "" then [] else [Strip(current)]
  }

  /** The segments of the rest of a payload, with `current` already collected. */
  function SplitFrom(s: string, depth: nat, current: string): seq<string>
    decreases |s|
  {
    if s == "" then Emit(current)
    else if depth == 0 && AtSeparator(s) then Emit(current) + SplitFrom(s[3..], 0, "")
    else SplitFrom(s[1..], Deeper(depth, s[0]), current + [s[0]])
  }

  /** `startswith(" | ", i)`. */
  predicate SeparatorAt(s: string, i: nat) {
    i + 3 <= |s| && s[i] == ' ' && s[i + 1] == '|' && s[i + 2] == ' '
  }

  /** The same segments, by position. */
  function SplitAt(s: string, i: nat, depth: nat, current: string): seq<string>
    decreases |s| - i
  {
    if i >= |s| then Emit(current)
    else if depth == 0 && SeparatorAt(s, i) then Emit(current) + SplitAt(s, i + 3, 0, "")
    else SplitAt(s, i + 1, Deeper(depth, s[i]), current + [s[i]])
  }

  lemma {:induction false} SplitByPosition(s: string, i: nat, depth: nat, current: string)
    requires i <= |s|
    ensures SplitAt(s, i, depth, current) == SplitFrom(s[i..], depth, current)
    decreases |s| - i
  {
    if i < |s| {
      assert AtSeparator(s[i..]) <==> SeparatorAt(s, i);
      if depth == 0 && SeparatorAt(s, i) {
        assert s[i..][3..] == s[i + 3..];
        SplitByPosition(s, i + 3, 0, "");
      } else {
        assert s[i..][1..] == s[i + 1..];
        SplitByPosition(s, i + 1, Deeper(depth, s[i]), current + [s[i]]);
      }
    }
  }

  method SplitFrames(payload: string) returns (segments: seq<string>)
    ensures segments == SplitFrom(payload, 0, "")
  {
    SplitByPosition(payload, 0, 0, "");
    assert payload[0..] == payload;
    segments := SplitLoop(payload);
  }

  method SplitLoop(payload: string) returns (segments: seq<string>)
    ensures segments == SplitAt(payload, 0, 0, "")
  {
    segments := [];
    var depth: nat, current, i := 0, "", 0;
    while i < |payload|
      invariant 0 <= i <= |payload|
      invariant segments + SplitAt(payload, i, depth, current) == SplitAt(payload, 0, 0, "")
    {
      if depth == 0 && SeparatorAt(payload, i) {
        EmitBefore(segments, current, SplitAt(payload, i + 3, 0, ""));
        var seg := Strip(current);
        if seg != "" {
          segments := segments + [seg];
        }
        current := "";
        i := i + 3;
        continue;
      }
      var ch := payload[i];
      current := current + [ch];
      if ch == '{' || ch == '(' {
        depth := depth + 1;
      } else if (ch == ')' || ch == '}') && depth > 0 {
        depth := depth - 1;
      }
      i := i + 1;
    }
    EmitBefore(segments, current, []);
    var remainder := Strip(current);
    if remainder != "" {
      segments := segments + [remainder];
    }
  }

  lemma EmitBefore(segments: seq<string>, current: string, rest: seq<string>)
    ensures segments + (Emit(current) + rest)
         == (if Strip(current) != "" then segments + [Strip(current)] else segments) + rest
    ensures segments + Emit(current) == if Strip(current) != "" then segments + [Strip(current)] else segments
  {
  }

  // ----- extract_braced_payload -----

  function FindChar(s: string, c: char, from: nat): (k: nat)
    requires from <= |s|
    ensures from <= k <= |s|
    ensures k < |s| ==> s[k] == c
    ensures forall i :: from <= i < k ==> s[i] != c
    decreases |s| - from
  {
    if from == |s| || s[from] == c then from else FindChar(s, c, from + 1)
  }

  /** Where the brace opened `depth` levels ago closes; the length when it does not. */
  function FindClose(s: string, depth: nat, from: nat): (k: nat)
    requires from <= |s| && depth > 0
    ensures from <= k <= |s|
    decreases |s| - from
  {
    if from == |s| then from
    else if s[from] == '{' then FindClose(s, depth + 1, from + 1)
    else if s[from] == '}' then (if depth == 1 then from else FindClose(s, depth - 1, from + 1))
    else FindClose(s, depth, from + 1)
  }

  /** The text between the first opening brace and the one that closes it. */
  function BracedText(rest: string): Option<string> {
    var start := FindChar(rest, '{', 0);
    if start == |rest| then None
    else
      var end := FindClose(rest, 1, start + 1);
      if end == |rest| then None else Some(rest[start + 1..end])
  }

  function BracedPayload(rest: string): Option<string> {
    match BracedText(rest)
    case None => None
    case Some(text) => Some(Strip(text))
  }

  method ExtractBracedPayload(rest: string) returns (r: Option<string>)
    ensures r == BracedPayload(rest)
  {
    var start := FindChar(rest, '{', 0);
    if start == |rest| {
      return None;
    }
    var depth, begin := 0, -1;
    for idx := start to |rest|
      invariant depth >= 0
      invariant idx == start ==> depth == 0 && begin == -1
      invariant idx > start ==> depth > 0 && begin == start + 1
      invariant idx > start ==> FindClose(rest, 1, start + 1) == FindClose(rest, depth, idx)
    {
      var ch := rest[idx];
      if ch == '{' {
        depth := depth + 1;
        if depth == 1 {
          begin := idx + 1;
        }
      } else if ch == '}' {
        depth := depth - 1;
        if depth == 0 && begin != -1 {
          return Some(Strip(rest[begin..idx]));
        }
      }
    }
    r := None;
  }

  // ----- printing a frame list -----

  function Join(frames: seq<string>): string {
    if frames == [] then ""
    else if |frames| == 1 then frames[0]
    else frames[0] + " | " + Join(frames[1..])
  }

  predicate Trimmed(f: string) {
    f != "" && !IsSpace(f[0]) && !IsSpace(f[|f| - 1])
  }

  /** The depth after a text, when no bracket closes below the starting depth. */
  function Level(f: string, depth: nat): Option<nat> {
    if f == "" then Some(depth)
    else if (f[0] == ')' || f[0] == '}') && depth == 0 then None
    else Level(f[1..], Deeper(depth, f[0]))
  }

  function BraceLevel(f: string, depth: nat): Option<nat> {
    if f == "" then Some(depth)
    else if f[0] == '{' then BraceLevel(f[1..], depth + 1)
    else if f[0] == '}' then (if depth == 0 then None else BraceLevel(f[1..], depth - 1))
    else BraceLevel(f[1..], depth)
  }

  /** A frame as the logger prints it: not blank at its ends, brackets and braces balanced. */
  predicate Frame(f: string) {
    Trimmed(f) && Level(f, 0) == Some(0) && BraceLevel(f, 0) == Some(0)
  }

  /** No separator is recognised at a position inside `f` when `rest` follows it. */
  predicate NoSeparator(f: string, depth: nat, rest: string) {
    f == "" || (!(depth == 0 && AtSeparator(f + rest)) && NoSeparator(f[1..], Deeper(depth, f[0]), rest))
  }

  predicate EndsInBar(f: string) {
    |f| >= 2 && f[|f| - 2] == ' ' && f[|f| - 1] == '|'
  }

  /** What makes a frame list unambiguous: no frame holds a separator outside brackets,
      and none but the last ends in a space and a bar. */
  ghost predicate Separable(frames: seq<string>) {
    && (forall i :: 0 <= i < |frames| ==> NoSeparator(frames[i], 0, ""))
    && (forall i :: 0 <= i < |frames| - 1 ==> !EndsInBar(frames[i]))
  }

  // ----- stripping -----

  lemma StripTrimmed(f: string)
    requires Trimmed(f)
    ensures Strip(f) == f
  {
  }

  lemma {:induction false} StripPadding(a: string, f: string, b: string)
    requires f == "" || Trimmed(f)
    requires (forall i :: 0 <= i < |a| ==> IsSpace(a[i])) && (forall i :: 0 <= i < |b| ==> IsSpace(b[i]))
    ensures Strip(a + f + b) == f
    decreases |a| + |b|
  {
    if a != "" {
      assert (a + f + b)[1..] == a[1..] + f + b;
      StripPadding(a[1..], f, b);
    } else if f == "" {
      assert a + f + b == b;
      StripBlank(b);
    } else {
      assert a + f + b == f + b;
      StripRightPadding(f, b);
    }
  }

  lemma {:induction false} StripBlank(b: string)
    requires forall i :: 0 <= i < |b| ==> IsSpace(b[i])
    ensures StripLeft(b) == ""
  {
    if b != "" { StripBlank(b[1..]); }
  }

  lemma {:induction false} StripRightPadding(f: string, b: string)
    requires Trimmed(f) && forall i :: 0 <= i < |b| ==> IsSpace(b[i])
    ensures StripRight(f + b) == f
    decreases |b|
  {
    if b != "" {
      assert (f + b)[..|f + b| - 1] == f + b[..|b| - 1];
      StripRightPadding(f, b[..|b| - 1]);
    } else {
      assert f + b == f;
    }
  }

  lemma StripNotBlank(s: string)
    requires s != "" && !IsSpace(s[0])
    ensures Strip(s) != ""
  {
    StripRightKeepsFirst(s);
  }

  lemma {:induction false} StripRightKeepsFirst(s: string)
    requires s != "" && !IsSpace(s[0])
    ensures StripRight(s) != ""
    decreases |s|
  {
    if IsSpace(s[|s| - 1]) { StripRightKeepsFirst(s[..|s| - 1]); }
  }

  // ----- splitting what was joined -----

  /** A stretch without separators is collected as it is. */
  lemma {:induction false} SplitSkips(f: string, rest: string, depth: nat, current: string)
    requires NoSeparator(f, depth, rest) && Level(f, depth).Some?
    ensures SplitFrom(f + rest, depth, current) == SplitFrom(rest, Level(f, depth).value, current + f)
    decreases |f|
  {
    if f == "" {
      assert f + rest == rest && current + f == current;
    } else {
      assert (f + rest)[1..] == f[1..] + rest;
      assert current + [f[0]] + f[1..] == current + f;
      SplitSkips(f[1..], rest, Deeper(depth, f[0]), current + [f[0]]);
    }
  }

  /** A separator recognised inside `f` ends the segment before `f` does. */
  lemma {:induction false} SplitsEarly(f: string, rest: string, depth: nat, current: string)
    requires !NoSeparator(f, depth, rest)
    requires if current == "" then f != "" && !IsSpace(f[0]) else !IsSpace(current[0])
    ensures var r := SplitFrom(f + rest, depth, current); r != [] && |r[0]| < |current| + |f|
    decreases |f|
  {
    if depth == 0 && AtSeparator(f + rest) {
      assert current != "" by { assert (f + rest)[0] == f[0]; }
      StripNotBlank(current);
    } else {
      assert (f + rest)[1..] == f[1..] + rest;
      SplitsEarly(f[1..], rest, Deeper(depth, f[0]), current + [f[0]]);
    }
  }

  /** A following separator only matters when `f` ends in a space and a bar. */
  lemma {:induction false} FollowingSeparator(f: string, depth: nat, more: string)
    requires Level(f, depth) == Some(0)
    ensures NoSeparator(f, depth, " | " + more) <==> NoSeparator(f, depth, "") && !EndsInBar(f)
    decreases |f|
  {
    if f != "" {
      FollowingSeparator(f[1..], Deeper(depth, f[0]), more);
      assert f + "" == f;
      if |f| == 2 && EndsInBar(f) {
        assert Level(f[1..][1..], Deeper(Deeper(depth, f[0]), f[1])) == Some(depth);
        assert AtSeparator(f + (" | " + more));
      }
    }
  }

  lemma {:induction false} JoinEnds(frames: seq<string>)
    requires frames != [] && forall i :: 0 <= i < |frames| ==> Trimmed(frames[i])
    ensures Trimmed(Join(frames))
  {
    if |frames| > 1 { JoinEnds(frames[1..]); }
  }

  /** The first frame of several comes back whole exactly when nothing splits it early. */
  lemma SplitFirst(f: string, more: string)
    requires Frame(f)
    ensures var r := SplitFrom(f + (" | " + more), 0, "");
      if NoSeparator(f, 0, "") && !EndsInBar(f) then r == [f] + SplitFrom(more, 0, "")
      else r != [] && |r[0]| < |f|
  {
    var rest := " | " + more;
    FollowingSeparator(f, 0, more);
    if NoSeparator(f, 0, rest) {
      SplitSkips(f, rest, 0, "");
      assert "" + f == f && rest[3..] == more;
      StripTrimmed(f);
    } else {
      SplitsEarly(f, rest, 0, "");
    }
  }

  lemma SplitLast(f: string)
    requires Frame(f)
    ensures var r := SplitFrom(f, 0, "");
      if NoSeparator(f, 0, "") then r == [f] else r != [] && |r[0]| < |f|
  {
    assert f + "" == f && "" + f == f;
    if NoSeparator(f, 0, "") {
      SplitSkips(f, "", 0, "");
      StripTrimmed(f);
    } else {
      SplitsEarly(f, "", 0, "");
    }
  }

  /** Splitting the joined text gives the frames back exactly when they are separable. */
  lemma {:induction false} SplitJoin(frames: seq<string>)
    requires forall i :: 0 <= i < |frames| ==> Frame(frames[i])
    ensures SplitFrom(Join(frames), 0, "") == frames <==> Separable(frames)
    decreases |frames|
  {
    if |frames| == 1 {
      SplitLast(frames[0]);
    } else if |frames| > 1 {
      var f, more := frames[0], Join(frames[1..]);
      assert Join(frames) == f + (" | " + more);
      SplitFirst(f, more);
      SplitJoin(frames[1..]);
      SeparableTail(frames);
      assert frames == [f] + frames[1..];
    }
  }

  lemma SeparableTail(frames: seq<string>)
    requires |frames| > 1
    ensures Separable(frames) <==> NoSeparator(frames[0], 0, "") && !EndsInBar(frames[0]) && Separable(frames[1..])
  {
    var t := frames[1..];
    assert forall i :: 1 <= i < |frames| ==> frames[i] == t[i - 1];
    if Separable(frames) {
      assert forall i :: 0 <= i < |t| ==> NoSeparator(t[i], 0, "") by {
        assert forall i :: 0 <= i < |t| ==> t[i] == frames[i + 1];
      }
      assert forall i :: 0 <= i < |t| - 1 ==> !EndsInBar(t[i]) by {
        assert forall i :: 0 <= i < |t| ==> t[i] == frames[i + 1];
      }
    }
  }

  // ----- extracting what was printed -----

  lemma {:induction false} BraceLevelAppend(a: string, b: string, depth: nat)
    requires BraceLevel(a, depth).Some?
    ensures BraceLevel(a + b, depth) == BraceLevel(b, BraceLevel(a, depth).value)
    decreases |a|
  {
    if a == "" {
      assert a + b == b;
    } else {
      assert (a + b)[1..] == a[1..] + b;
      BraceLevelAppend(a[1..], b, if a[0] == '{' then depth + 1 else if a[0] == '}' then depth - 1 else depth);
    }
  }

  lemma {:induction false} JoinBalanced(frames: seq<string>)
    requires forall i :: 0 <= i < |frames| ==> Frame(frames[i])
    ensures BraceLevel(Join(frames), 0) == Some(0)
  {
    if |frames| == 1 {
      assert Join(frames) == frames[0];
    } else if |frames| > 1 {
      JoinBalanced(frames[1..]);
      var t := Join(frames[1..]);
      BraceLevelAppend(frames[0], " | " + t, 0);
      assert Join(frames) == frames[0] + (" | " + t);
      NoBraces(" | ", 0);
      BraceLevelAppend(" | ", t, 0);
    }
  }

  lemma {:induction false} NoBraces(b: string, depth: nat)
    requires forall i :: 0 <= i < |b| ==> b[i] != '{' && b[i] != '}'
    ensures BraceLevel(b, depth) == Some(depth)
  {
    if b != "" { NoBraces(b[1..], depth); }
  }

  lemma {:induction false} CloseFound(a: string, p: string, suffix: string, depth: nat)
    requires BraceLevel(p, depth) == Some(0)
    ensures FindClose(a + p + "}" + suffix, depth + 1, |a|) == |a| + |p|
    decreases |p|
  {
    var s := a + p + "}" + suffix;
    if p != "" {
      var d := if p[0] == '{' then depth + 1 else if p[0] == '}' then depth - 1 else depth;
      assert s == (a + [p[0]]) + p[1..] + "}" + suffix;
      CloseFound(a + [p[0]], p[1..], suffix, d);
    }
  }

  predicate Blank(s: string) {
    forall i :: 0 <= i < |s| ==> IsSpace(s[i])
  }

  lemma PaddingBalanced(a: string, payload: string, b: string)
    requires Blank(a) && Blank(b) && BraceLevel(payload, 0) == Some(0)
    ensures BraceLevel(a + payload + b, 0) == Some(0)
  {
    assert forall i :: 0 <= i < |a| ==> IsSpace(a[i]) && a[i] != '{' && a[i] != '}';
    assert forall i :: 0 <= i < |b| ==> IsSpace(b[i]) && b[i] != '{' && b[i] != '}';
    NoBraces(a, 0);
    NoBraces(b, 0);
    BraceLevelAppend(a, payload + b, 0);
    BraceLevelAppend(payload, b, 0);
    assert a + (payload + b) == a + payload + b;
  }

  lemma PrintedPayload(prefix: string, a: string, payload: string, b: string, suffix: string)
    requires '{' !in prefix && Blank(a) && Blank(b)
    requires payload == "" || Trimmed(payload)
    requires BraceLevel(payload, 0) == Some(0)
    ensures BracedPayload(prefix + "{" + (a + payload + b) + "}" + suffix) == Some(payload)
  {
    PaddingBalanced(a, payload, b);
    PrintedText(prefix, a + payload + b, suffix);
    StripPadding(a, payload, b);
  }

  lemma PrintedText(prefix: string, inner: string, suffix: string)
    requires '{' !in prefix && BraceLevel(inner, 0) == Some(0)
    ensures BracedText(prefix + "{" + inner + "}" + suffix) == Some(inner)
  {
    var line := prefix + "{" + inner + "}" + suffix;
    CloseFound(prefix + "{", inner, suffix, 0);
    FirstBrace(prefix, inner + "}" + suffix);
    assert line == prefix + "{" + (inner + "}" + suffix);
    assert line[|prefix| + 1..|prefix| + 1 + |inner|] == inner;
  }

  lemma FirstBrace(prefix: string, rest: string)
    requires '{' !in prefix
    ensures FindChar(prefix + "{" + rest, '{', 0) == |prefix|
  {
    var line := prefix + "{" + rest;
    assert line[|prefix|] == '{';
    assert forall i :: 0 <= i < |prefix| ==> line[i] == prefix[i];
  }

  /** Printing frames joined by " | " inside braces, after any text without an opening brace
      and before any text at all, and then extracting and splitting, returns those
      frames exactly when the list is separable. */
  lemma PrintedFramesReadBack(prefix: string, a: string, frames: seq<string>, b: string, suffix: string)
    requires '{' !in prefix && Blank(a) && Blank(b)
    requires forall i :: 0 <= i < |frames| ==> Frame(frames[i])
    ensures var p := BracedPayload(prefix + "{" + (a + Join(frames) + b) + "}" + suffix);
      && p == Some(Join(frames))
      && (SplitFrom(p.value, 0, "") == frames <==> Separable(frames))
  {
    if frames != [] { JoinEnds(frames); }
    JoinBalanced(frames);
    PrintedPayload(prefix, a, Join(frames), b, suffix);
    SplitJoin(frames);
  }

  // ----- brackets, by counting -----

  /** Opening brackets minus closing ones. */
  function Balance(s: string): int {
    if s == "" then 0
    else
      var c := s[|s| - 1];
      Balance(s[..|s| - 1]) + (if c == '(' || c == '{' then 1 else if c == ')' || c == '}' then -1 else 0)
  }

  /** The depth of the splitter after a text. */
  function DepthAfter(s: string): nat {
    if s == "" then 0 else Deeper(DepthAfter(s[..|s| - 1]), s[|s| - 1])
  }

  /** No bracket opened before this position is still open there. */
  ghost predicate Outside(s: string, i: nat)
    requires i <= |s|
  {
    forall j :: 0 <= j <= i ==> Balance(s[j..i]) <= 0
  }

  lemma BalanceNext(s: string, j: nat, i: nat)
    requires j <= i < |s|
    ensures Balance(s[j..i + 1]) ==
      Balance(s[j..i]) + (if s[i] == '(' || s[i] == '{' then 1 else if s[i] == ')' || s[i] == '}' then -1 else 0)
  {
    assert s[j..i + 1][..i - j] == s[j..i];
  }

  /** The depth counts the brackets still open: it is the greatest balance of a last part. */
  lemma {:induction false} DepthExact(s: string, i: nat) returns (j: nat)
    requires i <= |s|
    ensures forall k :: 0 <= k <= i ==> Balance(s[k..i]) <= DepthAfter(s[..i])
    ensures j <= i && Balance(s[j..i]) == DepthAfter(s[..i])
    decreases i
  {
    if i == 0 {
      j := 0;
      assert s[0..0] == "";
    } else {
      j := DepthExact(s, i - 1);
      assert s[..i][..i - 1] == s[..i - 1];
      forall k | 0 <= k < i ensures Balance(s[k..i]) <= DepthAfter(s[..i]) { BalanceNext(s, k, i - 1); }
      assert s[i..i] == "";
      BalanceNext(s, j, i - 1);
      if (s[i - 1] == ')' || s[i - 1] == '}') && DepthAfter(s[..i - 1]) == 0 { j := i; }
    }
  }

  lemma OutsideExact(s: string, i: nat)
    requires i <= |s|
    ensures Outside(s, i) <==> DepthAfter(s[..i]) == 0
  {
    var j := DepthExact(s, i);
  }

  // ----- splitting, for every payload -----

  /** A separator outside brackets. */
  ghost predicate CutAt(s: string, i: nat) {
    SeparatorAt(s, i) && Outside(s, i)
  }

  /** The cuts from position `from` on: each is the first one not before the end of the last. */
  ghost predicate AreCuts(s: string, from: nat, cuts: seq<nat>)
    decreases |cuts|
  {
    if cuts == [] then forall i: nat :: from <= i <= |s| ==> !CutAt(s, i)
    else
      && from <= cuts[0] && CutAt(s, cuts[0])
      && (forall i: nat :: from <= i < cuts[0] ==> !CutAt(s, i))
      && AreCuts(s, cuts[0] + 3, cuts[1..])
  }

  /** The stripped pieces between the cuts, without the blank ones. */
  ghost function Pieces(s: string, from: nat, cuts: seq<nat>): seq<string>
    requires from <= |s| && AreCuts(s, from, cuts)
    decreases |cuts|
  {
    if cuts == [] then Emit(s[from..])
    else Emit(s[from..cuts[0]]) + Pieces(s, cuts[0] + 3, cuts[1..])
  }

  /** From position `i` of a piece that began at `from`. */
  lemma {:induction false} SplitAtExact(s: string, from: nat, i: nat) returns (cuts: seq<nat>)
    requires from <= i <= |s| && forall k: nat :: from <= k < i ==> !CutAt(s, k)
    ensures AreCuts(s, from, cuts)
    ensures SplitAt(s, i, DepthAfter(s[..i]), s[from..i]) == Pieces(s, from, cuts)
    decreases |s| - i
  {
    if i == |s| {
      cuts := [];
      assert s[from..i] == s[from..];
    } else {
      OutsideExact(s, i);
      if CutAt(s, i) {
        DepthOverSeparator(s, i);
        assert s[i + 3..i + 3] == "";
        var rest := SplitAtExact(s, i + 3, i + 3);
        cuts := [i] + rest;
        assert cuts[1..] == rest;
      } else {
        DepthNext(s, i);
        assert s[from..i] + [s[i]] == s[from..i + 1];
        cuts := SplitAtExact(s, from, i + 1);
      }
    }
  }

  lemma DepthNext(s: string, i: nat)
    requires i < |s|
    ensures DepthAfter(s[..i + 1]) == Deeper(DepthAfter(s[..i]), s[i])
  {
    assert s[..i + 1][..i] == s[..i];
  }

  lemma DepthOverSeparator(s: string, i: nat)
    requires SeparatorAt(s, i)
    ensures DepthAfter(s[..i + 3]) == DepthAfter(s[..i])
  {
    DepthNext(s, i);
    DepthNext(s, i + 1);
    DepthNext(s, i + 2);
  }

  /** Splitting cuts at the separators outside brackets, from left to right, and keeps the
      stripped pieces that are not blank. */
  lemma SplitExact(s: string) returns (cuts: seq<nat>)
    ensures AreCuts(s, 0, cuts) && SplitFrom(s, 0, "") == Pieces(s, 0, cuts)
  {
    cuts := SplitAtExact(s, 0, 0);
    SplitByPosition(s, 0, 0, "");
    assert s[0..] == s && s[0..0] == "" && s[..0] == "";
  }

  /** Stripping takes off the blanks at both ends and nothing else. */
  lemma StripExact(s: string) returns (a: string, b: string)
    ensures Blank(a) && Blank(b) && s == a + Strip(s) + b && (Strip(s) == "" || Trimmed(Strip(s)))
  {
    var l := StripLeft(s);
    a := LeftPart(s);
    b := l[|StripRight(l)|..];
    RightPart(l);
    if Strip(s) != "" { assert Strip(s)[0] == l[0]; }
  }

  lemma {:induction false} LeftPart(s: string) returns (a: string)
    ensures Blank(a) && s == a + StripLeft(s)
    decreases |s|
  {
    if s != "" && IsSpace(s[0]) {
      var rest := LeftPart(s[1..]);
      a := [s[0]] + rest;
      assert s == [s[0]] + (rest + StripLeft(s[1..]));
    } else {
      a := "";
    }
  }

  lemma {:induction false} RightPart(s: string)
    ensures Blank(s[|StripRight(s)|..])
    decreases |s|
  {
    if s != "" && IsSpace(s[|s| - 1]) {
      var m := s[..|s| - 1];
      RightPart(m);
      assert s[|StripRight(s)|..] == m[|StripRight(m)|..] + [s[|s| - 1]];
    }
  }

  // ----- frames, by counting -----

  lemma {:induction false} NoSeparatorFrom(f: string, i: nat)
    requires i <= |f|
    ensures NoSeparator(f[i..], DepthAfter(f[..i]), "") <==> forall k: nat :: i <= k <= |f| ==> !CutAt(f, k)
    decreases |f| - i
  {
    if i < |f| {
      assert f[i..] + "" == f[i..];
      assert AtSeparator(f[i..]) <==> SeparatorAt(f, i);
      OutsideExact(f, i);
      assert f[i..][1..] == f[i + 1..];
      DepthNext(f, i);
      NoSeparatorFrom(f, i + 1);
      assert (forall k: nat :: i <= k <= |f| ==> !CutAt(f, k)) <==>
        (!CutAt(f, i) && forall k: nat :: i + 1 <= k <= |f| ==> !CutAt(f, k));
    }
  }

  lemma NoSeparatorExact(f: string)
    ensures NoSeparator(f, 0, "") <==> forall k: nat :: k <= |f| ==> !CutAt(f, k)
  {
    NoSeparatorFrom(f, 0);
    assert f[0..] == f && f[..0] == "";
  }

  lemma {:induction false} LevelFrom(f: string, depth: nat)
    ensures Level(f, depth).Some? <==> forall k :: 0 <= k <= |f| ==> depth + Balance(f[..k]) >= 0
    ensures Level(f, depth).Some? ==> Level(f, depth).value == depth + Balance(f)
    decreases |f|
  {
    assert f[..|f|] == f;
    if f != "" {
      var t := f[1..];
      LevelFrom(t, Deeper(depth, f[0]));
      forall k | 0 < k <= |f| ensures Balance(f[..k]) == Balance(f[..1]) + Balance(t[..k - 1]) {
        assert f[..k] == f[..1] + t[..k - 1];
        BalanceAppend(f[..1], t[..k - 1]);
      }
      BalanceNext(f, 0, 0);
      assert f[0..1] == f[..1] && f[0..0] == "" && f[..0] == "" && t[..0] == "";
      assert t[..|t|] == t;
      if forall k :: 0 <= k <= |f| ==> depth + Balance(f[..k]) >= 0 {
        assert depth + Balance(f[..1]) >= 0;
        forall k | 0 <= k <= |t| ensures Deeper(depth, f[0]) + Balance(t[..k]) >= 0 {
          assert Balance(f[..k + 1]) == Balance(f[..1]) + Balance(t[..k]);
        }
      }
      if Level(f, depth).Some? {
        forall k | 0 <= k <= |f| ensures depth + Balance(f[..k]) >= 0 {
          if k > 0 { assert Deeper(depth, f[0]) + Balance(t[..k - 1]) >= 0; }
        }
      }
    }
  }

  lemma {:induction false} BalanceAppend(a: string, b: string)
    ensures Balance(a + b) == Balance(a) + Balance(b)
    decreases |b|
  {
    if b == "" {
      assert a + b == a;
    } else {
      BalanceAppend(a, b[..|b| - 1]);
      assert (a + b)[..|a + b| - 1] == a + b[..|b| - 1];
    }
  }

  /** A frame's brackets: none closes before it opens, and all are closed at the end. */
  lemma LevelExact(f: string)
    ensures Level(f, 0) == Some(0) <==> Balance(f) == 0 && forall k :: 0 <= k <= |f| ==> Balance(f[..k]) >= 0
  {
    LevelFrom(f, 0);
  }

  /** A frame list is unambiguous exactly when no frame has a cut in it and none but the last
      ends in a space and a bar. */
  lemma SeparableExact(frames: seq<string>)
    ensures Separable(frames) <==>
      && (forall i, k: nat :: 0 <= i < |frames| && k <= |frames[i]| ==> !CutAt(frames[i], k))
      && (forall i :: 0 <= i < |frames| - 1 ==> !EndsInBar(frames[i]))
  {
    forall i | 0 <= i < |frames|
      ensures NoSeparator(frames[i], 0, "") <==> forall k: nat :: k <= |frames[i]| ==> !CutAt(frames[i], k)
    {
      NoSeparatorExact(frames[i]);
    }
  }

  // ----- the braced payload, for every line -----

  lemma {:induction false} CloseExact(s: string, depth: nat, from: nat)
    requires from <= |s| && depth > 0
    ensures var k := FindClose(s, depth, from);
      && (k < |s| ==> s[k] == '}' && BraceLevel(s[from..k], depth - 1) == Some(0))
      && (k == |s| ==> forall e :: from <= e < |s| && s[e] == '}' ==> BraceLevel(s[from..e], depth - 1) != Some(0))
    decreases |s| - from
  {
    if from < |s| {
      var c := s[from];
      var next := if c == '{' then depth + 1 else if c == '}' then depth - 1 else depth;
      forall e | from < e <= |s| ensures s[from..e][0] == c && s[from..e][1..] == s[from + 1..e] {
      }
      assert s[from..from] == "";
      if next > 0 { CloseExact(s, next, from + 1); }
    }
  }

  /** A line with a first brace that is closed again, and the text in between. */
  ghost predicate Embraces(rest: string, a: string, t: string, b: string) {
    rest == a + "{" + t + "}" + b && '{' !in a && BraceLevel(t, 0) == Some(0)
  }

  /** The payload is the text between the first brace and the one that closes it, if there are both. */
  lemma BracedExact(rest: string, t: string)
    ensures BracedText(rest) == Some(t) <==> exists a, b :: Embraces(rest, a, t, b)
  {
    if BracedText(rest) == Some(t) {
      var start := FindChar(rest, '{', 0);
      CloseExact(rest, 1, start + 1);
      var end := FindClose(rest, 1, start + 1);
      var a, b := rest[..start], rest[end + 1..];
      assert rest == a + "{" + t + "}" + b;
      assert Embraces(rest, a, t, b);
    }
    forall a, b | Embraces(rest, a, t, b) ensures BracedText(rest) == Some(t) {
      PrintedText(a, t, b);
    }
  }
}
