/** The string operations of Go's `strings` package that the handlers rely on,
    with the laws that make splitting, joining and trimming undo each other. */
module GoStrings {

  /** `strings.Split` for a one-character separator; never returns an empty list. */
  function Split(s: string, sep: char): (parts: seq<string>)
    ensures |parts| > 0
    ensures forall i | 0 <= i < |parts| :: sep !in parts[i]
  {
    if s == "" then [""]
    else
      var rest := Split(s[1..], sep);
      if s[0] == sep then [""] + rest else [[s[0]] + rest[0]] + rest[1..]
  }

  /** `strings.Join` for a one-character separator. */
  function Join(parts: seq<string>, sep: char): string {
    if |parts| == 0 then "" else if |parts| == 1 then parts[0] else parts[0] + [sep] + Join(parts[1..], sep)
  }

  lemma {:induction false} SplitHead(a: string, rest: string, sep: char)
    requires sep !in a
    ensures Split(a + [sep] + rest, sep) == [a] + Split(rest, sep)
  {
    if a == "" {
      assert a + [sep] + rest == [sep] + rest;
    } else {
      SplitHead(a[1..], rest, sep);
      assert (a + [sep] + rest)[1..] == a[1..] + [sep] + rest;
      assert [a[0]] + a[1..] == a;
    }
  }

  lemma {:induction false} SplitSeparatorFree(a: string, sep: char)
    requires sep !in a
    ensures Split(a, sep) == [a]
  {
    if a != "" {
      SplitSeparatorFree(a[1..], sep);
      assert [a[0]] + a[1..] == a;
    }
  }

  /** Splitting undoes joining, for a non-empty list of separator-free parts. */
  lemma {:induction false} SplitJoin(parts: seq<string>, sep: char)
    requires |parts| > 0
    requires forall i | 0 <= i < |parts| :: sep !in parts[i]
    ensures Split(Join(parts, sep), sep) == parts
  {
    if |parts| == 1 {
      SplitSeparatorFree(parts[0], sep);
    } else {
      SplitHead(parts[0], Join(parts[1..], sep), sep);
      SplitJoin(parts[1..], sep);
    }
  }

  /** Joining undoes splitting, for every string. */
  lemma {:induction false} JoinSplit(s: string, sep: char)
    ensures Join(Split(s, sep), sep) == s
  {
    if s != "" {
      JoinSplit(s[1..], sep);
      var rest := Split(s[1..], sep);
      if s[0] != sep && |rest| > 1 {
        assert ([[s[0]] + rest[0]] + rest[1..])[1..] == rest[1..];
        assert [s[0]] + (rest[0] + [sep] + Join(rest[1..], sep)) == [s[0]] + rest[0] + [sep] + Join(rest[1..], sep);
      }
    }
  }

  /** A string has one part exactly when it does not contain the separator. */
  lemma {:induction false} SplitCount(s: string, sep: char)
    ensures |Split(s, sep)| == 1 <==> sep !in s
  {
    if s != "" { SplitCount(s[1..], sep); }
  }

  function TrimLeft(s: string, drop: char -> bool): (r: string)
    ensures r != "" ==> !drop(r[0])
  {
    if s != "" && drop(s[0]) then TrimLeft(s[1..], drop) else s
  }

  function TrimRight(s: string, drop: char -> bool): (r: string)
    ensures r != "" ==> !drop(r[|r| - 1])
    decreases |s|
  {
    if s != "" && drop(s[|s| - 1]) then TrimRight(s[..|s| - 1], drop) else s
  }

  /** Removes the matching characters at both ends. */
  function Trim(s: string, drop: char -> bool): string {
    TrimRight(TrimLeft(s, drop), drop)
  }

  /** Nothing is trimmed from a string that is empty or begins and ends with kept characters. */
  ghost predicate Trimmed(s: string, drop: char -> bool) {
    s != "" ==> !drop(s[0]) && !drop(s[|s| - 1])
  }

  lemma {:induction false} TrimRightIsPrefix(s: string, drop: char -> bool)
    ensures TrimRight(s, drop) <= s
    decreases |s|
  {
    if s != "" && drop(s[|s| - 1]) { TrimRightIsPrefix(s[..|s| - 1], drop); }
  }

  lemma TrimIsTrimmed(s: string, drop: char -> bool)
    ensures Trimmed(Trim(s, drop), drop)
    ensures Trimmed(s, drop) ==> Trim(s, drop) == s
  {
    TrimRightIsPrefix(TrimLeft(s, drop), drop);
  }

  lemma {:induction false} TrimLeftKeepsOut(s: string, drop: char -> bool, c: char)
    requires c !in s
    ensures c !in TrimLeft(s, drop)
  {
    if s != "" && drop(s[0]) { TrimLeftKeepsOut(s[1..], drop, c); }
  }

  /** Trimming brings in no character. */
  lemma TrimKeepsOut(s: string, drop: char -> bool, c: char)
    requires c !in s
    ensures c !in Trim(s, drop)
  {
    TrimLeftKeepsOut(s, drop, c);
    TrimRightIsPrefix(TrimLeft(s, drop), drop);
  }

  ghost predicate AllDropped(s: string, drop: char -> bool) {
    forall i | 0 <= i < |s| :: drop(s[i])
  }

  lemma {:induction false} TrimLeftCuts(s: string, drop: char -> bool) returns (pre: string)
    ensures s == pre + TrimLeft(s, drop) && AllDropped(pre, drop)
  {
    pre := "";
    if s != "" && drop(s[0]) {
      var rest := TrimLeftCuts(s[1..], drop);
      pre := [s[0]] + rest;
    }
  }

  lemma {:induction false} TrimRightCuts(s: string, drop: char -> bool) returns (post: string)
    ensures s == TrimRight(s, drop) + post && AllDropped(post, drop)
    decreases |s|
  {
    post := "";
    if s != "" && drop(s[|s| - 1]) {
      var rest := TrimRightCuts(s[..|s| - 1], drop);
      post := rest + [s[|s| - 1]];
    }
  }

  /** What is left of a string when matching characters go at both ends. */
  ghost predicate Remains(s: string, t: string, drop: char -> bool) {
    Trimmed(t, drop) && exists pre, post :: s == pre + t + post && AllDropped(pre, drop) && AllDropped(post, drop)
  }

  /** Trimming takes matching characters off both ends, and no others, until none is left there. */
  lemma TrimExactly(s: string, drop: char -> bool, t: string)
    ensures t == Trim(s, drop) <==> Remains(s, t, drop)
  {
    var u := Trim(s, drop);
    var pre := TrimLeftCuts(s, drop);
    var post := TrimRightCuts(TrimLeft(s, drop), drop);
    TrimIsTrimmed(s, drop);
    assert s == pre + u + post;
    if Remains(s, t, drop) {
      var pre', post' :| s == pre' + t + post' && AllDropped(pre', drop) && AllDropped(post', drop);
      OneRemainder(s, pre, u, post, pre', t, post', drop);
    }
  }

  lemma KeptShows(s: string, pre: string, t: string, post: string, drop: char -> bool)
    requires s == pre + t + post && AllDropped(pre, drop) && AllDropped(post, drop) && Trimmed(t, drop)
    ensures AllDropped(s, drop) <==> t == ""
    ensures t != "" ==> !drop(s[|pre|]) && !drop(s[|pre| + |t| - 1])
  {
    if t != "" { assert s[|pre|] == t[0] && s[|pre| + |t| - 1] == t[|t| - 1]; }
  }

  lemma OneRemainder(s: string, pre: string, t: string, post: string, pre': string, t': string, post': string,
                     drop: char -> bool)
    requires s == pre + t + post && AllDropped(pre, drop) && AllDropped(post, drop) && Trimmed(t, drop)
    requires s == pre' + t' + post' && AllDropped(pre', drop) && AllDropped(post', drop) && Trimmed(t', drop)
    ensures t == t'
  {
    KeptShows(s, pre, t, post, drop);
    KeptShows(s, pre', t', post', drop);
    if t != "" && t' != "" {
      StartsNoLater(s, pre, t, post, pre', drop);
      StartsNoLater(s, pre', t', post', pre, drop);
      EndsNoSooner(s, pre, t, post, pre' + t', post', drop);
      EndsNoSooner(s, pre', t', post', pre + t, post, drop);
      assert t == s[|pre|..|s| - |post|] && t' == s[|pre'|..|s| - |post'|];
    }
  }

  lemma StartsNoLater(s: string, pre: string, t: string, post: string, pre': string, drop: char -> bool)
    requires s == pre + t + post && t != "" && Trimmed(t, drop) && pre' <= s && AllDropped(pre', drop)
    ensures |pre'| <= |pre|
  {
    assert s[|pre|] == t[0];
    forall i | 0 <= i < |pre'| ensures drop(s[i]) { assert s[i] == pre'[i]; }
  }

  lemma EndsNoSooner(s: string, pre: string, t: string, post: string, head: string, post': string, drop: char -> bool)
    requires s == pre + t + post && t != "" && Trimmed(t, drop) && s == head + post' && AllDropped(post', drop)
    ensures |post'| <= |post|
  {
    var last := |pre| + |t| - 1;
    assert s[last] == t[|t| - 1];
    forall i | |head| <= i < |s| ensures drop(s[i]) { assert s[i] == post'[i - |head|]; }
  }

  /** The White_Space code points used by `strings.TrimSpace`. */
  predicate IsSpace(c: char) {
    '\U{0009}' <= c <= '\U{000D}' || '\U{2000}' <= c <= '\U{200A}' || '\U{2028}' <= c <= '\U{2029}'
    || c == ' ' || c == '\U{0085}' || c == '\U{00A0}' || c == '\U{1680}' || c == '\U{202F}' || c == '\U{205F}'
    || c == '\U{3000}'
  }

  /** The 25 code points with the Unicode property White_Space. */
  lemma SpacesExactly(c: char)
    ensures IsSpace(c) <==> c as int in {0x09, 0x0A, 0x0B, 0x0C, 0x0D, 0x20, 0x85, 0xA0, 0x1680, 0x2000, 0x2001, 0x2002,
                                         0x2003, 0x2004, 0x2005, 0x2006, 0x2007, 0x2008, 0x2009, 0x200A, 0x2028,
                                         0x2029, 0x202F, 0x205F, 0x3000}
  {
  }

  function TrimSpace(s: string): string {
    Trim(s, IsSpace)
  }

  lemma TrimSpaceIdempotent(s: string)
    ensures TrimSpace(TrimSpace(s)) == TrimSpace(s)
  {
    TrimIsTrimmed(s, IsSpace);
    TrimIsTrimmed(TrimSpace(s), IsSpace);
  }

  /** A string is blank exactly when it holds white space only. */
  lemma BlankExactly(s: string)
    ensures TrimSpace(s) == "" <==> forall i | 0 <= i < |s| :: IsSpace(s[i])
  {
    var pre := TrimLeftCuts(s, IsSpace);
    var post := TrimRightCuts(TrimLeft(s, IsSpace), IsSpace);
    TrimIsTrimmed(s, IsSpace);
    KeptShows(s, pre, TrimSpace(s), post, IsSpace);
  }

  /** Lower-casing of one code point, exact wherever the result is an ASCII letter; other
      letters are left alone, which no comparison in the handlers can observe. */
  function LowerChar(c: char): char {
    if 'A' <= c <= 'Z' then (c as int - 'A' as int + 'a' as int) as char
    else if c == '\U{0130}' then 'i'
    else if c == '\U{212A}' then 'k'
    else c
  }

  function ToLower(s: string): string {
    seq(|s|, i requires 0 <= i < |s| => LowerChar(s[i]))
  }

  /** What lower-cases to an ASCII letter: the letter, its capital, and two letters outside ASCII. */
  lemma LowerExactly(c: char, i: nat)
    requires i < 26
    ensures var lower, upper := ('a' as int + i) as char, ('A' as int + i) as char;
            LowerChar(c) == lower <==> c == lower || c == upper || (lower == 'i' && c == '\U{0130}')
                                       || (lower == 'k' && c == '\U{212A}')
  {
  }

  predicate HasPrefix(s: string, prefix: string) {
    prefix <= s
  }

  /** The value part of `strings.Cut(s, sep)`, or `None` when there is no separator. */
  function CutAfter(s: string, sep: char): Option<string> {
    if s == "" then None else if s[0] == sep then Some(s[1..]) else CutAfter(s[1..], sep)
  }

  lemma {:induction false} CutAfterPrinted(tag: string, sep: char, value: string)
    requires sep !in tag
    ensures CutAfter(tag + [sep] + value, sep) == Some(value)
  {
    if tag == "" {
      assert tag + [sep] + value == [sep] + value;
    } else {
      CutAfterPrinted(tag[1..], sep, value);
      assert (tag + [sep] + value)[1..] == tag[1..] + [sep] + value;
    }
  }

  /** The value follows the first separator. */
  lemma CutAfterExactly(s: string, sep: char, value: string)
    ensures CutAfter(s, sep) == Some(value) <==> exists tag :: sep !in tag && s == tag + [sep] + value
  {
    if CutAfter(s, sep) == Some(value) {
      var tag := CutTag(s, sep);
    }
    if tag :| sep !in tag && s == tag + [sep] + value {
      CutAfterPrinted(tag, sep, value);
    }
  }

  lemma {:induction false} CutTag(s: string, sep: char) returns (tag: string)
    requires CutAfter(s, sep).Some?
    ensures sep !in tag && s == tag + [sep] + CutAfter(s, sep).value
  {
    tag := "";
    if s[0] != sep {
      var rest := CutTag(s[1..], sep);
      tag := [s[0]] + rest;
    }
  }

  /** The value is a proper suffix of the text it was cut from, after a separator. */
  lemma {:induction false} CutAfterSuffix(s: string, sep: char)
    requires CutAfter(s, sep).Some?
    ensures var v := CutAfter(s, sep).value; |v| < |s| && v == s[|s| - |v|..]
  {
    if s[0] != sep { CutAfterSuffix(s[1..], sep); }
  }

  datatype Option<+T> = None | Some(value: T)
  datatype Result<+T, +E> = Ok(value: T) | Err(error: E)
}
