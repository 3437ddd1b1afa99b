/**
 * The pairing-code formatter: `code.match(/.{1,4}/g).join('-') || code`.
 *
 * In a JavaScript regular expression `.` matches any character except a line terminator, so a
 * global match of `.{1,4}` cuts every maximal run of non-terminator characters into chunks of
 * four (the last chunk of a run may be shorter) and skips the terminators. When nothing matches,
 * `match` yields `null` and the call to `join` throws; the `|| code` fallback is never reached,
 * because a successful join of at least one non-empty chunk is a non-empty (truthy) string.
 */
module PairingCode {
  import opened Wrappers

  const Dash := '-'
  const GroupSize := 4

  /** Characters JavaScript's `.` refuses to match. */
  predicate IsLineTerminator(c: char) {
    c == '\n' || c == '\r' || c == '\U{2028}' || c == '\U{2029}'
  }

  predicate NoTerminators(s: string) {
    forall i :: 0 <= i < |s| ==> !IsLineTerminator(s[i])
  }

  predicate NoDashes(s: string) {
    forall i :: 0 <= i < |s| ==> s[i] != Dash
  }

  /** The error `match(...)` followed by `.join` raises when there is no match at all. */
  datatype FormatError = NoMatch

  /** Length of the longest prefix of `s`, of at most `k` characters, that `.{1,k}` can match. */
  function Lead(s: string, k: nat): (n: nat)
    ensures n <= k && n <= |s|
    ensures NoTerminators(s[..n])
    ensures n < k && n < |s| ==> IsLineTerminator(s[n])
  {
    if k == 0 || s == [] || IsLineTerminator(s[0]) then 0
    else 1 + Lead(s[1..], k - 1)
  }

  /** The array `code.match(/.{1,4}/g)` returns (the empty sequence stands for `null`). */
  function Chunks(s: string): (parts: seq<string>)
    ensures forall i :: 0 <= i < |parts| ==> 0 < |parts[i]| <= GroupSize
    decreases |s|
  {
    if s == [] then []
    else if IsLineTerminator(s[0]) then Chunks(s[1..])
    else
      var n := Lead(s, GroupSize);
      [s[..n]] + Chunks(s[n..])
  }

  /** `parts.join('-')`: one dash between each two consecutive parts. */
  function Join(parts: seq<string>): (r: string)
    ensures |parts| > 0 ==> |r| == |Concat(parts)| + |parts| - 1
  {
    if |parts| == 0 then ""
    else if |parts| == 1 then parts[0]
    else parts[0] + [Dash] + Join(parts[1..])
  }

  /** The formatted pairing code, or the `TypeError` the expression throws. It fails exactly
      when the code has no character outside the line terminators (the empty code included).
      Otherwise the result keeps every visible character and adds one dash between each two
      chunks; it is never empty, so the `|| code` fallback is never taken. */
  function Format(code: string): (r: Result<string, FormatError>)
    ensures r.Err? <==> Visible(code) == ""
    ensures r.Ok? ==> |r.value| == |Visible(code)| + |Chunks(code)| - 1 && |r.value| > 0
  {
    ConcatChunks(code);
    var parts := Chunks(code);
    if parts == [] then Err(NoMatch) else Ok(Join(parts))
  }

  // ---------------------------------------------------------------- reference definitions

  function Concat(parts: seq<string>): string {
    if parts == [] then "" else parts[0] + Concat(parts[1..])
  }

  /** `s` with every occurrence of `c` deleted. */
  function Strip(s: string, c: char): string {
    if s == [] then ""
    else (if s[0] == c then "" else [s[0]]) + Strip(s[1..], c)
  }

  /** `s` without its line terminators: the characters the regular expression can see. */
  function Visible(s: string): string {
    if s == [] then ""
    else (if IsLineTerminator(s[0]) then "" else [s[0]]) + Visible(s[1..])
  }

  function Min(a: int, b: int): int {
    if a <= b then a else b
  }

  // ---------------------------------------------------------------- helper lemmas

  lemma {:induction false} StripAppend(a: string, b: string, c: char)
    ensures Strip(a + b, c) == Strip(a, c) + Strip(b, c)
  {
    if a == [] {
      assert a + b == b;
    } else {
      assert (a + b)[0] == a[0];
      assert (a + b)[1..] == a[1..] + b;
      StripAppend(a[1..], b, c);
    }
  }

  lemma {:induction false} StripAbsent(s: string, c: char)
    requires forall i :: 0 <= i < |s| ==> s[i] != c
    ensures Strip(s, c) == s
  {
    if s != [] {
      StripAbsent(s[1..], c);
    }
  }

  lemma {:induction false} VisibleAppend(a: string, b: string)
    ensures Visible(a + b) == Visible(a) + Visible(b)
  {
    if a == [] {
      assert a + b == b;
    } else {
      assert (a + b)[0] == a[0];
      assert (a + b)[1..] == a[1..] + b;
      VisibleAppend(a[1..], b);
    }
  }

  lemma {:induction false} VisibleOfClean(s: string)
    requires NoTerminators(s)
    ensures Visible(s) == s
  {
    if s != [] {
      VisibleOfClean(s[1..]);
    }
  }

  /** Every chunk is a non-empty, terminator-free piece of at most four characters of `s`. */
  lemma {:induction false} ChunksWellFormed(s: string)
    decreases |s|
    ensures forall i :: 0 <= i < |Chunks(s)| ==>
      0 < |Chunks(s)[i]| <= GroupSize && NoTerminators(Chunks(s)[i]) &&
      (forall j :: 0 <= j < |Chunks(s)[i]| ==> Chunks(s)[i][j] in s)
  {
    if s == [] {
    } else if IsLineTerminator(s[0]) {
      ChunksWellFormed(s[1..]);
      forall i, j | 0 <= i < |Chunks(s)| && 0 <= j < |Chunks(s)[i]|
        ensures Chunks(s)[i][j] in s
      {
        assert Chunks(s)[i][j] in s[1..];
      }
    } else {
      var n := Lead(s, GroupSize);
      ChunksWellFormed(s[n..]);
      var rest := Chunks(s[n..]);
      assert Chunks(s) == [s[..n]] + rest;
      forall i, j | 0 <= i < |Chunks(s)| && 0 <= j < |Chunks(s)[i]|
        ensures Chunks(s)[i][j] in s
      {
        if i == 0 {
          assert Chunks(s)[i][j] == s[j];
        } else {
          assert Chunks(s)[i] == rest[i - 1];
          assert rest[i - 1][j] in s[n..];
        }
      }
    }
  }

  lemma {:induction false} StripJoin(parts: seq<string>)
    requires forall i :: 0 <= i < |parts| ==> NoDashes(parts[i])
    ensures Strip(Join(parts), Dash) == Concat(parts)
  {
    if |parts| == 0 {
    } else if |parts| == 1 {
      StripAbsent(parts[0], Dash);
      assert Concat(parts[1..]) == "";
    } else {
      StripJoin(parts[1..]);
      StripAppend(parts[0] + [Dash], Join(parts[1..]), Dash);
      StripAppend(parts[0], [Dash], Dash);
      StripAbsent(parts[0], Dash);
    }
  }

  lemma SliceOfSuffix(s: string, k: nat, lo: nat, hi: nat)
    requires k <= |s| && lo <= hi <= |s| - k
    ensures s[k..][lo..hi] == s[k + lo .. k + hi]
  {
    assert forall j :: 0 <= j < hi - lo ==> s[k..][lo..hi][j] == s[k + lo + j];
  }

  // ---------------------------------------------------------------- properties of the formatter

  /** Gluing the chunks back together gives exactly the characters the regular expression sees:
      no character is lost, duplicated or reordered. */
  lemma {:induction false} ConcatChunks(s: string)
    decreases |s|
    ensures Concat(Chunks(s)) == Visible(s)
  {
    if s == [] {
    } else if IsLineTerminator(s[0]) {
      ConcatChunks(s[1..]);
    } else {
      var n := Lead(s, GroupSize);
      ConcatChunks(s[n..]);
      assert s == s[..n] + s[n..];
      VisibleAppend(s[..n], s[n..]);
      VisibleOfClean(s[..n]);
    }
  }

  /** For a code without line terminators the chunks are the consecutive slices of four:
      chunk `i` is `s[4i .. min(4i+4, |s|)]`, so all but the last have length 4 and the last
      has length 1 to 4. */
  lemma {:induction false} ChunksOfClean(s: string)
    requires NoTerminators(s)
    decreases |s|
    ensures |Chunks(s)| == (|s| + GroupSize - 1) / GroupSize
    ensures forall i :: 0 <= i < |Chunks(s)| ==>
      GroupSize * i < |s| && Chunks(s)[i] == s[GroupSize * i .. Min(GroupSize * i + GroupSize, |s|)]
  {
    if s != [] {
      var n := Lead(s, GroupSize);
      assert n == Min(GroupSize, |s|);
      var rest := s[n..];
      ChunksOfClean(rest);
      assert Chunks(s) == [s[..n]] + Chunks(rest);
      forall i | 0 < i < |Chunks(s)|
        ensures GroupSize * i < |s|
        ensures Chunks(s)[i] == s[GroupSize * i .. Min(GroupSize * i + GroupSize, |s|)]
      {
        assert Chunks(s)[i] == Chunks(rest)[i - 1];
        assert |s| > GroupSize && n == GroupSize && |rest| == |s| - GroupSize;
        var lo, hi := GroupSize * (i - 1), Min(GroupSize * (i - 1) + GroupSize, |rest|);
        assert lo + GroupSize == GroupSize * i;
        assert hi + GroupSize == Min(GroupSize * i + GroupSize, |s|);
        SliceOfSuffix(s, GroupSize, lo, hi);
      }
    }
  }

  /** Deleting the dashes from the formatted code gives back the original code, minus the line
      terminators the regular expression skips, provided the code contained no dashes. */
  lemma FormatRoundTrip(code: string)
    requires NoDashes(code)
    requires Visible(code) != ""
    ensures Format(code).Ok?
    ensures Strip(Format(code).value, Dash) == Visible(code)
  {
    ChunksWellFormed(code);
    var parts := Chunks(code);
    forall i | 0 <= i < |parts|
      ensures NoDashes(parts[i])
    {
      forall j | 0 <= j < |parts[i]|
        ensures parts[i][j] != Dash
      {
        assert parts[i][j] in code;
      }
    }
    StripJoin(parts);
    ConcatChunks(code);
  }

  /** A six-character code is shown as `XXXX-XX`. */
  lemma FormatSix(code: string)
    requires |code| == 6 && NoTerminators(code)
    ensures Format(code) == Ok(code[..4] + "-" + code[4..])
  {
    ChunksOfClean(code);
    var parts := Chunks(code);
    assert |parts| == 2;
    assert parts[0] == code[..4];
    assert parts[1] == code[4..6];
    assert code[4..] == parts[1];
    assert parts[1..] == [parts[1]];
    assert Join(parts) == parts[0] + [Dash] + Join(parts[1..]);
  }

  /** An eight-character code is shown as `XXXX-XXXX`. */
  lemma FormatEight(code: string)
    requires |code| == 8 && NoTerminators(code)
    ensures Format(code) == Ok(code[..4] + "-" + code[4..])
  {
    ChunksOfClean(code);
    var parts := Chunks(code);
    assert |parts| == 2;
    assert parts[0] == code[..4];
    assert parts[1] == code[4..8];
    assert code[4..] == parts[1];
    assert parts[1..] == [parts[1]];
    assert Join(parts) == parts[0] + [Dash] + Join(parts[1..]);
  }
}
