/** The few string operations of Python's `str` that the scripts rely on,
    restricted to the ASCII range: substring search (`in`), `lower()`,
    `strip()`, `strip('/')`, `split('/')` and `'/'.join(...)`. */
module Text {

  /** Python's `sub in s`: `sub` occurs somewhere in `s` as a contiguous
      slice (the empty string occurs in every string). */
  predicate Contains(s: string, sub: string)
    decreases |s|
  {
    sub <= s || (|s| > 0 && Contains(s[1..], sub))
  }

  /** `sub` sits in `s` at position `i`. */
  predicate OccursAt(s: string, sub: string, i: nat)
  {
    i + |sub| <= |s| && s[i..i + |sub|] == sub
  }

  /** An occurrence of `sub` at some position of `s` implies `Contains`. */
  lemma {:induction false} ContainsAt(s: string, sub: string, i: nat)
    requires OccursAt(s, sub, i)
    ensures Contains(s, sub)
    decreases i
  {
    if i == 0 {
      assert sub <= s;
    } else {
      assert s[1..][i - 1..i - 1 + |sub|] == s[i..i + |sub|];
      ContainsAt(s[1..], sub, i - 1);
    }
  }

  /** Conversely, `Contains` gives a position where `sub` occurs, so `Contains`
      is exactly Python's substring test. */
  lemma {:induction false} ContainsOccurs(s: string, sub: string)
    requires Contains(s, sub)
    ensures exists i: nat :: OccursAt(s, sub, i)
    decreases |s|
  {
    if sub <= s {
      assert OccursAt(s, sub, 0);
    } else {
      ContainsOccurs(s[1..], sub);
      var i: nat :| OccursAt(s[1..], sub, i);
      assert s[1..][i..i + |sub|] == s[i + 1..i + 1 + |sub|];
      assert OccursAt(s, sub, i + 1);
    }
  }

  /** Every prefix of a string that occurs in `s` occurs in `s` as well. */
  lemma {:induction false} ContainsPrefix(s: string, t: string, u: string)
    requires Contains(s, t) && u <= t
    ensures Contains(s, u)
    decreases |s|
  {
    if t <= s {
      assert u <= s;
    } else {
      ContainsPrefix(s[1..], t, u);
    }
  }

  /** ASCII `lower()`: upper-case Latin letters become lower-case, every other
      character is left unchanged. */
  function LowerChar(c: char): (r: char)
    ensures 'A' <= c <= 'Z' ==> 'a' <= r <= 'z' && r as int == c as int + 32
    ensures !('A' <= c <= 'Z') ==> r == c
  {
    if 'A' <= c <= 'Z' then (c as int - 'A' as int + 'a' as int) as char else c
  }

  function Lower(s: string): (r: string)
    ensures |r| == |s|
    ensures forall i :: 0 <= i < |s| ==> r[i] == LowerChar(s[i])
  {
    seq(|s|, i requires 0 <= i < |s| => LowerChar(s[i]))
  }

  /** The ASCII characters for which Python's `str.isspace()` holds:
      tab, line feed, vertical tab, form feed, carriage return, the four
      information separators 0x1C-0x1F, and space. */
  predicate IsSpace(c: char)
  {
    (9 <= c as int <= 13) || (28 <= c as int <= 31) || c == ' '
  }

  /** `s.lstrip()`: `s` without its leading white space. */
  function StripLeft(s: string): (r: string)
    ensures r != [] ==> !IsSpace(r[0])
    decreases |s|
  {
    if s != [] && IsSpace(s[0]) then StripLeft(s[1..]) else s
  }

  /** `s.rstrip()`: `s` without its trailing white space. */
  function StripRight(s: string): (r: string)
    ensures |r| <= |s|
    ensures r != [] ==> !IsSpace(r[|r| - 1]) && r[0] == s[0]
    decreases |s|
  {
    if s != [] && IsSpace(s[|s| - 1]) then StripRight(s[..|s| - 1]) else s
  }

  lemma {:induction false} StripLeftIsSuffix(s: string)
    ensures |StripLeft(s)| <= |s| && StripLeft(s) == s[|s| - |StripLeft(s)|..]
    decreases |s|
  {
    if s != [] && IsSpace(s[0]) {
      StripLeftIsSuffix(s[1..]);
    }
  }

  lemma {:induction false} StripRightIsPrefix(s: string)
    ensures |StripRight(s)| <= |s| && StripRight(s) == s[..|StripRight(s)|]
    decreases |s|
  {
    if s != [] && IsSpace(s[|s| - 1]) {
      StripRightIsPrefix(s[..|s| - 1]);
    }
  }

  /** `s` has no white space at either end. */
  predicate IsStripped(s: string)
  {
    s != [] ==> !IsSpace(s[0]) && !IsSpace(s[|s| - 1])
  }

  /** `s.strip()`: white space removed from both ends. */
  function Strip(s: string): (r: string)
    ensures IsStripped(r)
  {
    StripRight(StripLeft(s))
  }

  /** What `strip()` leaves is a contiguous part of the string. */
  lemma StripIsPart(s: string)
    ensures |Strip(s)| <= |s| && Contains(s, Strip(s))
  {
    var l := StripLeft(s);
    var r := StripRight(l);
    StripLeftIsSuffix(s);
    StripRightIsPrefix(l);
    var i := |s| - |l|;
    assert s[i..i + |r|] == r;
    ContainsAt(s, r, i);
  }

  /** Stripping a string that already has no white space at either end
      leaves it unchanged, so `Strip` is idempotent. */
  lemma StripFixed(s: string)
    requires IsStripped(s)
    ensures Strip(s) == s
  {
  }

  lemma StripIdempotent(s: string)
    ensures Strip(Strip(s)) == Strip(s)
  {
    StripFixed(Strip(s));
  }

  /** `s.strip('/')`: slashes removed from both ends. */
  function StripSlashesLeft(s: string): (r: string)
    ensures |r| <= |s| && r == s[|s| - |r|..]
    ensures r != [] ==> r[0] != '/'
    decreases |s|
  {
    if s != [] && s[0] == '/' then StripSlashesLeft(s[1..]) else s
  }

  function StripSlashesRight(s: string): (r: string)
    ensures |r| <= |s| && r == s[..|r|]
    ensures r != [] ==> r[|r| - 1] != '/'
    decreases |s|
  {
    if s != [] && s[|s| - 1] == '/' then StripSlashesRight(s[..|s| - 1]) else s
  }

  function StripSlashes(s: string): (r: string)
    ensures r != [] ==> r[0] != '/' && r[|r| - 1] != '/'
  {
    var l := StripSlashesLeft(s);
    var r := StripSlashesRight(l);
    assert r != [] ==> r[0] == l[0];
    r
  }

  /** Everything `StripSlashesLeft` drops is a slash. */
  lemma {:induction false} StripSlashesLeftDropsSlashes(s: string)
    ensures forall k :: 0 <= k < |s| - |StripSlashesLeft(s)| ==> s[k] == '/'
    decreases |s|
  {
    if s != [] && s[0] == '/' {
      StripSlashesLeftDropsSlashes(s[1..]);
      assert forall k :: 1 <= k < |s| ==> s[k] == s[1..][k - 1];
    }
  }

  /** Everything `StripSlashesRight` drops is a slash. */
  lemma {:induction false} StripSlashesRightDropsSlashes(s: string)
    ensures forall k :: |StripSlashesRight(s)| <= k < |s| ==> s[k] == '/'
    decreases |s|
  {
    if s != [] && s[|s| - 1] == '/' {
      StripSlashesRightDropsSlashes(s[..|s| - 1]);
    }
  }

  /** `strip('/')` yields a contiguous part of its input, and every character
      outside that part is a slash. */
  lemma StripSlashesIsPart(s: string)
    ensures exists i, j :: (0 <= i <= j <= |s| && StripSlashes(s) == s[i..j] &&
      (forall k :: 0 <= k < i ==> s[k] == '/') &&
      (forall k :: j <= k < |s| ==> s[k] == '/'))
  {
    var l := StripSlashesLeft(s);
    var r := StripSlashesRight(l);
    var i := |s| - |l|;
    var j := i + |r|;
    StripSlashesLeftDropsSlashes(s);
    StripSlashesRightDropsSlashes(l);
    assert l == s[i..];
    assert r == s[i..j];
    forall k | j <= k < |s| ensures s[k] == '/' {
      assert s[k] == l[k - i];
    }
  }

  /** `s.split('/')`, with Python's semantics: the result is never empty, an
      empty string splits into `[""]`, and consecutive slashes give empty
      parts. It is defined from the back, one character at a time. */
  function Split(s: string): (parts: seq<string>)
    ensures |parts| >= 1
    ensures forall i :: 0 <= i < |parts| ==> '/' !in parts[i]
    decreases |s|
  {
    if s == [] then [""]
    else
      var init := Split(s[..|s| - 1]);
      var c := s[|s| - 1];
      if c == '/' then init + [""]
      else init[..|init| - 1] + [init[|init| - 1] + [c]]
  }

  /** `'/'.join(parts)`. */
  function JoinSlash(parts: seq<string>): string
    decreases |parts|
  {
    if |parts| == 0 then ""
    else if |parts| == 1 then parts[0]
    else JoinSlash(parts[..|parts| - 1]) + "/" + parts[|parts| - 1]
  }

  /** Appending an empty part appends a slash. */
  lemma JoinSlashAppendEmpty(parts: seq<string>)
    requires |parts| >= 1
    ensures JoinSlash(parts + [""]) == JoinSlash(parts) + "/"
  {
    assert (parts + [""])[..|parts|] == parts;
  }

  /** Extending the last part by a character extends the joined string by it. */
  lemma JoinSlashExtendLast(parts: seq<string>, c: char)
    requires |parts| >= 1
    ensures var n := |parts|; JoinSlash(parts[..n - 1] + [parts[n - 1] + [c]]) == JoinSlash(parts) + [c]
  {
    var n := |parts|;
    var ext := parts[..n - 1] + [parts[n - 1] + [c]];
    if n > 1 {
      assert ext[..n - 1] == parts[..n - 1];
      assert JoinSlash(ext) == JoinSlash(parts[..n - 1]) + "/" + parts[n - 1] + [c];
    }
  }

  /** Joining the parts of a split gives back the string. */
  lemma {:induction false} JoinSplit(s: string)
    ensures JoinSlash(Split(s)) == s
    decreases |s|
  {
    if s != [] {
      var t := s[..|s| - 1];
      var c := s[|s| - 1];
      var init := Split(t);
      JoinSplit(t);
      if c == '/' {
        assert Split(s) == init + [""];
        JoinSlashAppendEmpty(init);
      } else {
        assert Split(s) == init[..|init| - 1] + [init[|init| - 1] + [c]];
        JoinSlashExtendLast(init, c);
      }
      assert s == t + [c];
    }
  }

  /** The text before the last slash of `s`, or "" when `s` holds no slash. */
  function BeforeLastSlash(s: string): (r: string)
    ensures '/' !in s ==> r == ""
    ensures '/' in s ==> |r| < |s| && r == s[..|r|] && s[|r|] == '/' && '/' !in s[|r| + 1..]
    decreases |s|
  {
    if s == [] then ""
    else if s[|s| - 1] == '/' then s[..|s| - 1]
    else
      var t := s[..|s| - 1];
      var r := BeforeLastSlash(t);
      if '/' in s then
        assert '/' in t;
        assert s[|r| + 1..] == t[|r| + 1..] + [s[|s| - 1]];
        r
      else
        r
  }

  /** Joining all parts of a split but the last (Python's
      `'/'.join(s.split('/')[:-1])`) gives the text before the last slash. */
  lemma {:induction false} JoinAllButLast(s: string)
    ensures var parts := Split(s); JoinSlash(parts[..|parts| - 1]) == BeforeLastSlash(s)
    decreases |s|
  {
    if s != [] {
      var t := s[..|s| - 1];
      var init := Split(t);
      var c := s[|s| - 1];
      if c == '/' {
        assert Split(s)[..|Split(s)| - 1] == init;
        JoinSplit(t);
      } else {
        assert Split(s)[..|Split(s)| - 1] == init[..|init| - 1];
        JoinAllButLast(t);
      }
    }
  }
}
