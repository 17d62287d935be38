/** The two Python 2 `str` methods the command builder relies on:
    `s.split(' ')`, which cuts at every single space character, and
    `s.strip()`, which removes leading and trailing whitespace. A Python 2
    `str` is a byte string: each character of a `string` here stands for
    one byte, and only the ASCII characters below matter to either method. */
module PyStr {

  /** The characters Python 2 `str.strip()` treats as whitespace: space,
      tab, line feed, vertical tab, form feed and carriage return. */
  predicate IsSpace(c: char) {
    c == ' ' || c == '\t' || c == '\n' || c == '\U{B}' || c == '\U{C}' || c == '\r'
  }

  predicate AllSpace(s: string) {
    forall k :: 0 <= k < |s| ==> IsSpace(s[k])
  }

  /** Neither the first nor the last character is whitespace. */
  predicate Trimmed(s: string) {
    s == [] || (!IsSpace(s[0]) && !IsSpace(s[|s| - 1]))
  }

  /** Number of occurrences of the separator `' '` in `s`. */
  function SpaceCount(s: string): nat {
    if s == [] then 0 else (if s[0] == ' ' then 1 else 0) + SpaceCount(s[1..])
  }

  /** `' '.join(pieces)` of a non-empty list: the inverse of `SplitOnSpace`. */
  function JoinOnSpace(pieces: seq<string>): string
    requires |pieces| >= 1
  {
    if |pieces| == 1 then pieces[0] else pieces[0] + " " + JoinOnSpace(pieces[1..])
  }

  /** `s.split(' ')`: the pieces between consecutive occurrences of the
      single character `' '`. Runs of spaces give empty pieces and no other
      whitespace character separates. */
  function SplitOnSpace(s: string): (pieces: seq<string>)
    ensures |pieces| == SpaceCount(s) + 1
    ensures forall k :: 0 <= k < |pieces| ==> ' ' !in pieces[k]
    ensures JoinOnSpace(pieces) == s
    decreases |s|
  {
    if s == [] then [""]
    else
      var rest := SplitOnSpace(s[1..]);
      if s[0] == ' ' then
        assert s == " " + s[1..];
        [""] + rest
      else
        JoinPrepend([s[0]], rest[0], rest[1..]);
        assert [rest[0]] + rest[1..] == rest;
        assert s == [s[0]] + s[1..];
        [[s[0]] + rest[0]] + rest[1..]
  }

  /** Gluing characters onto the first piece glues them onto the join. */
  lemma JoinPrepend(x: string, y: string, tail: seq<string>)
    ensures JoinOnSpace([x + y] + tail) == x + JoinOnSpace([y] + tail)
  {
    if |tail| > 0 {
      assert ([x + y] + tail)[1..] == tail;
      assert ([y] + tail)[1..] == tail;
    }
  }

  /** The join starts with the first piece, followed by the separator when
      more pieces follow. */
  lemma JoinHead(pieces: seq<string>)
    requires |pieces| >= 1
    ensures |pieces| == 1 ==> JoinOnSpace(pieces) == pieces[0]
    ensures |pieces| > 1 ==> JoinOnSpace(pieces) == pieces[0] + " " + JoinOnSpace(pieces[1..])
  {
  }

  /** Splitting is the unique inverse of joining: any space-free pieces
      whose join is `s` are exactly `SplitOnSpace(s)`. */
  lemma {:induction false} SplitOnSpaceUnique(s: string, pieces: seq<string>)
    requires |pieces| >= 1
    requires forall k :: 0 <= k < |pieces| ==> ' ' !in pieces[k]
    requires JoinOnSpace(pieces) == s
    ensures pieces == SplitOnSpace(s)
    decreases |s|
  {
    JoinHead(pieces);
    var p0 := pieces[0];
    assert |pieces| > 1 ==> |s| > |p0| && s[|p0|] == ' ' && s[..|p0|] == p0;
    assert |pieces| == 1 ==> s == p0;
    if s == [] {
      assert |pieces| == 1;
    } else if s[0] == ' ' {
      assert p0 == [];
      assert |pieces| > 1;
      assert s == " " + JoinOnSpace(pieces[1..]);
      SplitOnSpaceUnique(s[1..], pieces[1..]);
    } else {
      assert p0 != [];
      var t := p0[1..];
      assert p0 == [s[0]] + t;
      var pieces' := [t] + pieces[1..];
      JoinPrepend([s[0]], t, pieces[1..]);
      assert pieces == [[s[0]] + t] + pieces[1..];
      assert s == [s[0]] + s[1..];
      assert JoinOnSpace(pieces') == s[1..];
      forall k | 0 <= k < |pieces'| ensures ' ' !in pieces'[k] {
        if k == 0 {
          assert forall c :: c in t ==> c in p0;
        } else {
          assert pieces'[k] == pieces[k];
        }
      }
      SplitOnSpaceUnique(s[1..], pieces');
    }
  }

  /** `s.lstrip()`: drops the leading whitespace. */
  function StripLeft(s: string): (r: string)
    ensures |r| <= |s|
    ensures r == [] || !IsSpace(r[0])
  {
    if s != [] && IsSpace(s[0]) then StripLeft(s[1..]) else s
  }

  /** What `StripLeft` removes is a whitespace prefix. */
  lemma {:induction false} StripLeftSuffix(s: string)
    ensures var r := StripLeft(s);
            r == s[|s| - |r|..] && AllSpace(s[..|s| - |r|])
  {
    if s != [] && IsSpace(s[0]) {
      StripLeftSuffix(s[1..]);
      var r := StripLeft(s);
      assert s[1..][|s| - 1 - |r|..] == s[|s| - |r|..];
      assert forall k :: 1 <= k < |s| - |r| ==> s[k] == s[1..][..|s| - 1 - |r|][k - 1];
    }
  }

  /** `s.rstrip()`: drops the trailing whitespace. */
  function StripRight(s: string): (r: string)
    ensures |r| <= |s|
    ensures r == [] || !IsSpace(r[|r| - 1])
  {
    if s != [] && IsSpace(s[|s| - 1]) then StripRight(s[..|s| - 1]) else s
  }

  /** What `StripRight` removes is a whitespace suffix. */
  lemma {:induction false} StripRightPrefix(s: string)
    ensures var r := StripRight(s);
            r == s[..|r|] && AllSpace(s[|r|..])
  {
    if s != [] && IsSpace(s[|s| - 1]) {
      var t := s[..|s| - 1];
      StripRightPrefix(t);
      var r := StripRight(s);
      assert t[..|r|] == s[..|r|];
      assert forall k :: |r| <= k < |s| - 1 ==> s[k] == t[|r|..][k - |r|];
    }
  }

  /** `r` is `s` with a whitespace prefix and a whitespace suffix removed,
      and `r` itself neither starts nor ends with whitespace. */
  ghost predicate StripsTo(s: string, r: string) {
    Trimmed(r) &&
    exists i, j :: 0 <= i <= j <= |s| && r == s[i..j] && AllSpace(s[..i]) && AllSpace(s[j..])
  }

  /** `s.strip()`: neither end of the result is whitespace. */
  function Strip(s: string): (r: string)
    ensures |r| <= |s| && Trimmed(r)
  {
    var r := StripRight(StripLeft(s));
    assert r != [] ==> r[0] == StripLeft(s)[0] by {
      StripRightPrefix(StripLeft(s));
    }
    r
  }

  /** `Strip` removes a whitespace prefix and a whitespace suffix and
      nothing else. */
  lemma StripSpec(s: string)
    ensures StripsTo(s, Strip(s))
  {
    var l := StripLeft(s);
    var r := StripRight(l);
    StripLeftSuffix(s);
    StripRightPrefix(l);
    var i := |s| - |l|;
    assert r == s[i..i + |r|];
    assert s[i + |r|..] == l[|r|..];
    StripsToAt(s, i, i + |r|);
  }

  /** The witness form of `StripsTo`. */
  lemma StripsToAt(s: string, i: nat, j: nat)
    requires i <= j <= |s| && Trimmed(s[i..j])
    requires AllSpace(s[..i]) && AllSpace(s[j..])
    ensures StripsTo(s, s[i..j])
  {
  }

  /** With `i` leading whitespace characters followed by a non-space (or
      the end), left-stripping removes exactly those `i`. */
  lemma {:induction false} StripLeftExact(s: string, i: nat)
    requires i <= |s| && AllSpace(s[..i])
    requires i == |s| || !IsSpace(s[i])
    ensures StripLeft(s) == s[i..]
  {
    if i > 0 {
      assert IsSpace(s[..i][0]);
      assert s[1..][..i - 1] == s[..i][1..];
      StripLeftExact(s[1..], i - 1);
      assert s[1..][i - 1..] == s[i..];
    }
  }

  /** With whitespace from position `j` on, preceded by a non-space (or the
      start), right-stripping keeps exactly the first `j` characters. */
  lemma {:induction false} StripRightExact(s: string, j: nat)
    requires j <= |s| && AllSpace(s[j..])
    requires j == 0 || !IsSpace(s[j - 1])
    ensures StripRight(s) == s[..j]
    decreases |s|
  {
    if j < |s| {
      var t := s[..|s| - 1];
      assert IsSpace(s[j..][|s| - 1 - j]);
      assert t[j..] == s[j..][..|s| - 1 - j];
      StripRightExact(t, j);
      assert t[..j] == s[..j];
    }
  }

  /** `Strip` is the only function meeting its description: whatever `r`
      satisfies `StripsTo(s, r)` is `Strip(s)`. */
  lemma StripUnique(s: string, r: string)
    requires StripsTo(s, r)
    ensures r == Strip(s)
  {
    var i, j :| 0 <= i <= j <= |s| && r == s[i..j] && AllSpace(s[..i]) && AllSpace(s[j..]);
    if r == [] {
      assert s == s[..i] + s[j..];
      StripLeftExact(s, |s|);
    } else {
      StripAt(s, i, j);
    }
  }

  /** The decomposition around a non-empty trimmed middle part `s[i..j]`. */
  lemma StripAt(s: string, i: nat, j: nat)
    requires i < j <= |s| && Trimmed(s[i..j])
    requires AllSpace(s[..i]) && AllSpace(s[j..])
    ensures Strip(s) == s[i..j]
  {
    assert s[i] == s[i..j][0];
    StripLeftExact(s, i);
    var l := s[i..];
    assert l[j - i..] == s[j..];
    assert l[j - i - 1] == s[i..j][j - i - 1];
    StripRightExact(l, j - i);
    assert l[..j - i] == s[i..j];
  }

  /** A string without leading or trailing whitespace is left alone. */
  lemma StripTrimmed(s: string)
    requires Trimmed(s)
    ensures Strip(s) == s
  {
    assert s[0..|s|] == s && s[..0] == [] && s[|s|..] == [];
    assert StripsTo(s, s);
    StripUnique(s, s);
  }

  /** Whitespace padding around a trimmed string is exactly what strip
      removes. */
  lemma StripPadded(pre: string, word: string, post: string)
    requires AllSpace(pre) && Trimmed(word) && AllSpace(post)
    ensures Strip(pre + word + post) == word
  {
    var s, i, j := pre + word + post, |pre|, |pre| + |word|;
    assert s[i..j] == word && s[..i] == pre && s[j..] == post;
    StripUnique(s, word);
  }

  /** Stripping twice is stripping once (a property of `Strip` itself; the
      command builder strips each token only once). */
  lemma StripIdempotent(s: string)
    ensures Strip(Strip(s)) == Strip(s)
  {
    StripTrimmed(Strip(s));
  }
}
