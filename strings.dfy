/** The JavaScript string operations the chat client and the server use,
    over `seq<char>`: `trim`, `indexOf`, `lastIndexOf`, `split`/`join` on one
    separator character, `includes`, ASCII `toLowerCase`, and the
    `^@<name>\b` mention pattern. */
module Strings {

  /** A character `String.prototype.trim` removes: JavaScript white space
      (tab, vertical tab, form feed, space, no-break space, byte order mark,
      the Unicode space separators) and line terminators. */
  predicate IsSpace(c: char) {
    || c == ' '
    || ('\t' <= c <= '\r')
    || c == '\U{00A0}'
    || c == '\U{1680}'
    || ('\U{2000}' <= c <= '\U{200A}')
    || c == '\U{2028}'
    || c == '\U{2029}'
    || c == '\U{202F}'
    || c == '\U{205F}'
    || c == '\U{3000}'
    || c == '\U{FEFF}'
  }

  predicate AllSpace(s: string) {
    forall i :: 0 <= i < |s| ==> IsSpace(s[i])
  }

  /** The number of white-space characters at the start of `s`. */
  function LeadingSpaces(s: string): (k: nat)
    ensures k <= |s|
    ensures AllSpace(s[..k])
    ensures k < |s| ==> !IsSpace(s[k])
  {
    if s == [] || !IsSpace(s[0]) then 0
    else
      var k := 1 + LeadingSpaces(s[1..]);
      assert s[..k] == [s[0]] + s[1..][..k - 1];
      k
  }

  /** The number of white-space characters at the end of `s`. */
  function TrailingSpaces(s: string): (k: nat)
    ensures k <= |s|
    ensures AllSpace(s[|s| - k..])
    ensures k < |s| ==> !IsSpace(s[|s| - 1 - k])
  {
    if s == [] || !IsSpace(s[|s| - 1]) then 0
    else
      var init := s[..|s| - 1];
      var k := 1 + TrailingSpaces(init);
      assert s[|s| - k..] == init[|init| - (k - 1)..] + [s[|s| - 1]];
      k
  }

  /** `s.trim()`: `s` with the white space at both ends removed. */
  function Trim(s: string): (r: string)
    ensures exists i, j :: 0 <= i <= j <= |s| && r == s[i..j] && AllSpace(s[..i]) && AllSpace(s[j..])
    ensures r != [] ==> !IsSpace(r[0]) && !IsSpace(r[|r| - 1])
    ensures r == [] <==> AllSpace(s)
  {
    var a := LeadingSpaces(s);
    if a == |s| then
      assert s[..a] == s && s[a..] == [];
      []
    else
      var b := TrailingSpaces(s);
      assert forall i :: |s| - b <= i < |s| ==> IsSpace(s[i]) by {
        forall i | |s| - b <= i < |s| ensures IsSpace(s[i]) {
          assert s[i] == s[|s| - b..][i - (|s| - b)];
        }
      }
      assert !AllSpace(s) by { assert !IsSpace(s[a]); }
      s[a..|s| - b]
  }

  /** One leading space is trimmed from text that has no white space at its ends. */
  lemma TrimSpaced(t: string)
    requires t != [] && !IsSpace(t[0]) && !IsSpace(t[|t| - 1])
    ensures Trim([' '] + t) == t
  {
    var s := [' '] + t;
    assert s[1..] == t;
    assert LeadingSpaces(s) == 1;
    assert s[|s| - 1] == t[|t| - 1];
    assert TrailingSpaces(s) == 0;
  }

  /** `s.indexOf(c)`: the first position of `c` in `s`, or -1. */
  function IndexOf(s: string, c: char): (r: int)
    ensures -1 <= r < |s|
    ensures r == -1 <==> c !in s
    ensures 0 <= r ==> s[r] == c && forall k :: 0 <= k < r ==> s[k] != c
  {
    if s == [] then -1
    else if s[0] == c then 0
    else
      var k := IndexOf(s[1..], c);
      if k < 0 then -1 else k + 1
  }

  /** `s.lastIndexOf(c)`: the last position of `c` in `s`, or -1. */
  function LastIndexOf(s: string, c: char): (r: int)
    ensures -1 <= r < |s|
    ensures r == -1 <==> c !in s
    ensures 0 <= r ==> s[r] == c && forall k :: r < k < |s| ==> s[k] != c
  {
    if s == [] then -1
    else if s[|s| - 1] == c then |s| - 1
    else
      var init := s[..|s| - 1];
      var k := LastIndexOf(init, c);
      assert s == init + [s[|s| - 1]];
      k
  }

  /** `s.split(sep)` for a one-character separator. */
  function Split(s: string, sep: char): (parts: seq<string>)
    ensures |parts| >= 1
    ensures forall i :: 0 <= i < |parts| ==> sep !in parts[i]
    decreases |s|
  {
    var i := IndexOf(s, sep);
    if i < 0 then [s] else [s[..i]] + Split(s[i + 1..], sep)
  }

  /** `parts.join(sep)`. */
  function Join(parts: seq<string>, sep: char): (r: string)
    ensures parts == [] ==> r == ""
    ensures |parts| == 1 ==> r == parts[0]
    ensures |parts| >= 2 ==> sep in r
  {
    if |parts| == 0 then ""
    else if |parts| == 1 then parts[0]
    else parts[0] + [sep] + Join(parts[1..], sep)
  }

  /** The text after the first `sep` of `s`, or "" when there is none. */
  function AfterFirst(s: string, sep: char): (r: string)
    ensures sep !in s ==> r == ""
    ensures sep in s ==> exists w :: s == w + [sep] + r && sep !in w
  {
    var i := IndexOf(s, sep);
    if i < 0 then ""
    else
      assert s == s[..i] + [sep] + s[i + 1..];
      s[i + 1..]
  }

  /** A leading character other than the separator does not move the text
      after the first separator. */
  lemma AfterFirstCons(c: char, s: string, sep: char)
    requires c != sep
    ensures AfterFirst([c] + s, sep) == AfterFirst(s, sep)
  {
    assert ([c] + s)[1..] == s;
  }

  /** The last `c` of `a + [c] + b`, when `b` holds none, is the one between. */
  lemma {:induction false} LastIndexOfAt(a: string, c: char, b: string)
    requires c !in b
    ensures LastIndexOf(a + [c] + b, c) == |a|
    decreases |b|
  {
    var s := a + [c] + b;
    if b == [] {
      assert s == a + [c];
    } else {
      var init := b[..|b| - 1];
      assert b[|b| - 1] in b;
      assert s[|s| - 1] == b[|b| - 1];
      assert s[..|s| - 1] == a + [c] + init;
      assert c !in init by {
        assert forall j :: 0 <= j < |init| ==> init[j] == b[j];
      }
      LastIndexOfAt(a, c, init);
    }
  }

  /** Splitting `s` around its last `c`. */
  lemma LastIndexOfSplit(s: string, c: char)
    requires c in s
    ensures s == s[..LastIndexOf(s, c)] + [c] + s[LastIndexOf(s, c) + 1..]
    ensures c !in s[LastIndexOf(s, c) + 1..]
  {
    var r := LastIndexOf(s, c);
    var b := s[r + 1..];
    assert forall j :: 0 <= j < |b| ==> b[j] == s[r + 1 + j];
  }

  lemma IndexOfAt(a: string, c: char, b: string)
    requires c !in a
    ensures IndexOf(a + [c] + b, c) == |a|
  {
    var s := a + [c] + b;
    assert s[|a|] == c;
    assert forall k :: 0 <= k < |a| ==> s[k] == a[k];
  }

  /** The two shapes of a `split`: no separator, or a first piece and the
      split of the rest. */
  lemma SplitShape(s: string, sep: char)
    ensures IndexOf(s, sep) < 0 ==> Split(s, sep) == [s]
    ensures IndexOf(s, sep) >= 0 ==>
      && Split(s, sep) == [s[..IndexOf(s, sep)]] + Split(s[IndexOf(s, sep) + 1..], sep)
      && Split(s, sep)[1..] == Split(s[IndexOf(s, sep) + 1..], sep)
  {
  }

  /** One step of `split` followed by `join`. */
  lemma JoinSplitStep(s: string, sep: char)
    requires IndexOf(s, sep) >= 0
    ensures Join(Split(s, sep), sep) == s[..IndexOf(s, sep)] + [sep] + Join(Split(s[IndexOf(s, sep) + 1..], sep), sep)
  {
    SplitShape(s, sep);
  }

  lemma Around(s: string, i: nat)
    requires i < |s|
    ensures s[..i] + [s[i]] + s[i + 1..] == s
  {
  }

  /** Joining what `split` produced gives the string back. */
  lemma {:induction false} JoinSplit(s: string, sep: char)
    ensures Join(Split(s, sep), sep) == s
    decreases |s|
  {
    var i := IndexOf(s, sep);
    if i >= 0 {
      JoinSplitStep(s, sep);
      JoinSplit(s[i + 1..], sep);
      Around(s, i);
    }
  }

  /** Splitting a join of separator-free parts gives the parts back. */
  lemma {:induction false} SplitJoin(parts: seq<string>, sep: char)
    requires |parts| >= 1
    requires forall i :: 0 <= i < |parts| ==> sep !in parts[i]
    ensures Split(Join(parts, sep), sep) == parts
  {
    if |parts| > 1 {
      var p0 := parts[0];
      var rest := Join(parts[1..], sep);
      var s := p0 + [sep] + rest;
      assert Join(parts, sep) == s;
      IndexOfAt(p0, sep, rest);
      assert s[..|p0|] == p0;
      assert s[|p0| + 1..] == rest;
      assert Split(s, sep) == [p0] + Split(rest, sep);
      SplitJoin(parts[1..], sep);
      assert parts == [p0] + parts[1..];
    } else {
      assert sep !in parts[0];
    }
  }

  /** `s.split(sep).slice(1).join(sep)` is the text after the first `sep`. */
  lemma SplitTail(s: string, sep: char)
    ensures Join(Split(s, sep)[1..], sep) == AfterFirst(s, sep)
  {
    SplitShape(s, sep);
    var i := IndexOf(s, sep);
    if i >= 0 {
      JoinSplit(s[i + 1..], sep);
    } else {
      assert [s][1..] == [];
    }
  }

  /** `t` occurs in `s` starting at position `i`. */
  predicate OccursAt(s: string, t: string, i: int) {
    0 <= i <= |s| - |t| && s[i..i + |t|] == t
  }

  /** `s.includes(t)`: `t` occurs in `s` as a contiguous piece. */
  function Contains(s: string, t: string): (r: bool)
    ensures r <==> exists i :: OccursAt(s, t, i)
  {
    if |t| > |s| then false
    else if s[..|t|] == t then
      assert OccursAt(s, t, 0);
      true
    else
      var r := Contains(s[1..], t);
      assert forall j :: OccursAt(s[1..], t, j) <==> OccursAt(s, t, j + 1) by {
        forall j ensures OccursAt(s[1..], t, j) <==> OccursAt(s, t, j + 1) {
          if 0 <= j <= |s| - 1 - |t| { assert s[1..][j..j + |t|] == s[j + 1..j + 1 + |t|]; }
        }
      }
      assert !OccursAt(s, t, 0);
      assert (exists i :: OccursAt(s, t, i)) ==> exists j :: OccursAt(s[1..], t, j) by {
        if exists i :: OccursAt(s, t, i) {
          var i :| OccursAt(s, t, i);
          assert OccursAt(s[1..], t, i - 1);
        }
      }
      r
  }

  /** ASCII `toLowerCase` of one character. */
  function LowerChar(c: char): char {
    if 'A' <= c <= 'Z' then (c as int + 32) as char else c
  }

  /** `s.toLowerCase()` on ASCII letters; other characters are kept. */
  function ToLower(s: string): (r: string)
    ensures |r| == |s|
    ensures forall i :: 0 <= i < |s| ==> r[i] == LowerChar(s[i])
  {
    if s == [] then [] else [LowerChar(s[0])] + ToLower(s[1..])
  }

  /** A word character of a JavaScript regular expression without the `u` flag. */
  predicate IsWordChar(c: char) {
    ('a' <= c <= 'z') || ('A' <= c <= 'Z') || ('0' <= c <= '9') || c == '_'
  }

  /** `\b` holds at position `p` of `s`: exactly one of the characters either
      side of `p` is a word character (outside `s` counts as non-word). */
  predicate IsWordBoundary(s: string, p: nat)
    requires p <= |s|
  {
    (p > 0 && IsWordChar(s[p - 1])) != (p < |s| && IsWordChar(s[p]))
  }

  /** `s` matches `^@<name>\b`, with `name` taken literally. */
  predicate StartsWithMention(s: string, name: string) {
    var m := ['@'] + name;
    |m| <= |s| && s[..|m|] == m && IsWordBoundary(s, |m|)
  }

  /** `s.replace(/^@<name>\b/, '')`. */
  function StripMention(s: string, name: string): (r: string)
    ensures StartsWithMention(s, name) ==> s == ['@'] + name + r
    ensures !StartsWithMention(s, name) ==> r == s
  {
    if StartsWithMention(s, name) then s[|name| + 1..] else s
  }

  /** `content.replace(/^@<name>\b/, '').trim()`: the clean-up both the chat
      client and the server apply to a private message. */
  function CleanMention(content: string, name: string): (r: string)
    ensures StartsWithMention(content, name) ==> r == Trim(content[|name| + 1..])
    ensures !StartsWithMention(content, name) ==> r == Trim(content)
    ensures r != [] ==> !IsSpace(r[0]) && !IsSpace(r[|r| - 1])
    ensures |r| <= |content|
  {
    Trim(StripMention(content, name))
  }

  /** A leading `@name` that ends at a word boundary is removed, then the rest
      is trimmed (for a name ending in a word character the boundary means
      the end of the text or a non-word character). */
  lemma CleanMentionStrips(name: string, rest: string)
    requires name != [] && IsWordChar(name[|name| - 1])
    requires rest == [] || !IsWordChar(rest[0])
    ensures CleanMention(['@'] + name + rest, name) == Trim(rest)
  {
    var s := ['@'] + name + rest;
    assert s[..|name| + 1] == ['@'] + name;
    assert s[|name| + 1..] == rest;
    assert s[|name|] == name[|name| - 1];
  }

  /** `@name`, a space and text with no white space at its ends: the clean-up
      leaves just that text. */
  lemma CleanMentionSpaced(name: string, t: string)
    requires name != [] && IsWordChar(name[|name| - 1])
    requires t != [] && !IsSpace(t[0]) && !IsSpace(t[|t| - 1])
    ensures CleanMention(['@'] + name + [' '] + t, name) == t
  {
    assert ['@'] + name + [' '] + t == ['@'] + name + ([' '] + t);
    CleanMentionStrips(name, [' '] + t);
    TrimSpaced(t);
  }

  /** `@name` followed by another word character is not a mention of `name`:
      the text is only trimmed. */
  lemma CleanMentionNeedsBoundary(name: string, rest: string)
    requires name != [] && IsWordChar(name[|name| - 1])
    requires rest != [] && IsWordChar(rest[0])
    ensures CleanMention(['@'] + name + rest, name) == Trim(['@'] + name + rest)
  {
    var s := ['@'] + name + rest;
    assert s[|name|] == name[|name| - 1];
    assert s[|name| + 1] == rest[0];
  }

  /** Text that does not start with `@name` is only trimmed. */
  lemma CleanMentionOtherwise(content: string, name: string)
    requires |content| < |name| + 1 || content[..|name| + 1] != ['@'] + name
    ensures CleanMention(content, name) == Trim(content)
  {
  }
}
