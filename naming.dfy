/** The naming rules applied when an entry of the batch is duplicated:
    removal of earlier copy markers, splitting a name on '.', counting the
    names that already carry a copy marker, and building the new name. */
module Naming {

  // ---------------------------------------------------------------------
  // Character classes of the copy-marker pattern /(\s?)\(Copy(\s?)(\d?)\)/g

  /** `\s` of an ECMAScript regular expression: the WhiteSpace and
      LineTerminator code points. */
  predicate IsSpace(c: char) {
    var n := c as int;
    (9 <= n <= 13) || n == 0x20 || n == 0xA0 || n == 0x1680 || (0x2000 <= n <= 0x200A)
    || n == 0x2028 || n == 0x2029 || n == 0x202F || n == 0x205F || n == 0x3000 || n == 0xFEFF
  }

  /** `\d`: one ASCII decimal digit. */
  predicate IsDigit(c: char) {
    '0' <= c <= '9'
  }

  // ---------------------------------------------------------------------
  // The language of the pattern, stated declaratively

  /** `(\s?)(\d?)\)`: at most one white-space character, at most one digit,
      then ")". */
  predicate IsTail(u: string) {
    |u| >= 1 && u[|u| - 1] == ')' &&
    var mid := u[..|u| - 1];
    mid == [] ||
    (|mid| == 1 && (IsSpace(mid[0]) || IsDigit(mid[0]))) ||
    (|mid| == 2 && IsSpace(mid[0]) && IsDigit(mid[1]))
  }

  /** `\(Copy(\s?)(\d?)\)`: "(Copy" followed by a tail. */
  predicate IsCore(w: string) {
    |w| >= 6 && w[..5] == "(Copy" && IsTail(w[5..])
  }

  /** A whole match of the pattern: an optional white-space character in front of a core. */
  predicate IsMarker(w: string) {
    IsCore(w) || (|w| > 0 && IsSpace(w[0]) && IsCore(w[1..]))
  }

  /** The substring of `s` from `i` to `j` matches the pattern. */
  predicate MarkerBetween(s: string, i: int, j: int) {
    0 <= i < j <= |s| && IsMarker(s[i..j])
  }

  /** No substring of `s` matches the pattern. */
  ghost predicate NoMarker(s: string) {
    forall i, j :: !MarkerBetween(s, i, j)
  }

  // ---------------------------------------------------------------------
  // The matcher: each optional part is tried present first, then absent,
  // as a greedy `?` with backtracking does. A result of 0 means no match.

  /** Match of `(\d?)\)` at the start of `r`. */
  function CloseLen(r: string): (n: nat)
    ensures n <= |r| && n <= 2
  {
    if |r| >= 2 && IsDigit(r[0]) && r[1] == ')' then 2
    else if |r| >= 1 && r[0] == ')' then 1
    else 0
  }

  /** Match of `(\s?)(\d?)\)` at the start of `r`. */
  function AfterCopyLen(r: string): (n: nat)
    ensures n <= |r| && n <= 3
  {
    if |r| >= 1 && IsSpace(r[0]) && CloseLen(r[1..]) > 0 then 1 + CloseLen(r[1..])
    else CloseLen(r)
  }

  /** Match of `\(Copy(\s?)(\d?)\)` at the start of `s`. */
  function CoreLen(s: string): (n: nat)
    ensures n <= |s|
    ensures n == 0 || 6 <= n <= 8
  {
    if |s| >= 5 && s[..5] == "(Copy" && AfterCopyLen(s[5..]) > 0 then 5 + AfterCopyLen(s[5..])
    else 0
  }

  /** Match of the whole pattern at the start of `s`. */
  function MarkerLen(s: string): (n: nat)
    ensures n <= |s|
    ensures n == 0 || 6 <= n <= 9
  {
    if |s| >= 1 && IsSpace(s[0]) && CoreLen(s[1..]) > 0 then 1 + CoreLen(s[1..])
    else CoreLen(s)
  }

  /** The matcher agrees with the declarative language: what it returns is a
      marker, and no other prefix of `s` is one (so it finds a match exactly
      when one starts here). */
  lemma MarkerLenSpec(s: string)
    ensures MarkerLen(s) > 0 ==> IsMarker(s[..MarkerLen(s)])
    ensures forall k :: 0 < k <= |s| && IsMarker(s[..k]) ==> k == MarkerLen(s)
  {
    if MarkerLen(s) > 0 {
      MarkerLenSound(s);
    }
    forall k | 0 < k <= |s| && IsMarker(s[..k])
      ensures k == MarkerLen(s)
    {
      MarkerLenComplete(s, k);
    }
  }

  lemma MarkerLenSound(s: string)
    requires MarkerLen(s) > 0
    ensures IsMarker(s[..MarkerLen(s)])
  {
    var n := MarkerLen(s);
    if IsSpace(s[0]) && CoreLen(s[1..]) > 0 {
      CoreLenSound(s[1..]);
      assert s[..n][1..] == s[1..][..n - 1];
    } else {
      CoreLenSound(s);
    }
  }

  lemma MarkerLenComplete(s: string, k: nat)
    requires 0 < k <= |s| && IsMarker(s[..k])
    ensures k == MarkerLen(s)
  {
    if IsCore(s[..k]) {
      CoreLenComplete(s, k);
      assert s[..k][0] == '(';
    } else {
      assert s[..k][1..] == s[1..][..k - 1];
      CoreLenComplete(s[1..], k - 1);
    }
  }

  lemma CoreLenSound(s: string)
    requires CoreLen(s) > 0
    ensures IsCore(s[..CoreLen(s)])
  {
    var n := CoreLen(s);
    AfterCopyLenSound(s[5..]);
    assert s[..n][..5] == s[..5];
    assert s[..n][5..] == s[5..][..n - 5];
  }

  lemma CoreLenComplete(s: string, k: nat)
    requires 0 < k <= |s| && IsCore(s[..k])
    ensures k == CoreLen(s)
  {
    assert s[..k][..5] == s[..5];
    assert s[..k][5..] == s[5..][..k - 5];
    AfterCopyLenComplete(s[5..], k - 5);
  }

  lemma AfterCopyLenSound(r: string)
    requires AfterCopyLen(r) > 0
    ensures IsTail(r[..AfterCopyLen(r)])
  {
    var n := AfterCopyLen(r);
    assert r[..n][..n - 1] == r[..n - 1];
  }

  lemma AfterCopyLenComplete(r: string, k: nat)
    requires 0 < k <= |r| && IsTail(r[..k])
    ensures k == AfterCopyLen(r)
  {
    assert r[..k][..k - 1] == r[..k - 1];
  }

  // ---------------------------------------------------------------------
  // Global replacement of the pattern by the empty string

  /** `s.replace(/(\s?)\(Copy(\s?)(\d?)\)/g, '')`: scanning left to right,
      every match found is removed and the scan resumes after it. */
  function Strip(s: string): (r: string)
    ensures |r| <= |s|
    decreases |s|
  {
    if s == [] then []
    else
      var n := MarkerLen(s);
      if n > 0 then Strip(s[n..]) else [s[0]] + Strip(s[1..])
  }

  /** Stripping leaves a name unchanged exactly when the name holds no match. */
  lemma {:induction false} StripIdentityIff(s: string)
    ensures Strip(s) == s <==> NoMarker(s)
    decreases |s|
  {
    if s == [] {
    } else if MarkerLen(s) > 0 {
      MarkerAtStart(s);
    } else {
      StripIdentityIff(s[1..]);
      StripKeepsHead(s);
      if NoMarker(s) {
        NoMarkerSlice(s, 1, |s|);
        assert s[1..|s|] == s[1..];
      }
      if NoMarker(s[1..]) {
        NoMarkerCons(s);
      }
    }
  }

  /** A match at the start: the name is not clean and stripping shortens it. */
  lemma MarkerAtStart(s: string)
    requires MarkerLen(s) > 0
    ensures MarkerBetween(s, 0, MarkerLen(s))
    ensures !NoMarker(s)
    ensures |Strip(s)| < |s|
  {
    var n := MarkerLen(s);
    MarkerLenSound(s);
    assert s[0..n] == s[..n];
    assert MarkerBetween(s, 0, n);
    assert Strip(s) == Strip(s[n..]);
    assert |Strip(s[n..])| <= |s| - n;
  }

  /** Where no match starts at the head, stripping keeps the name exactly when it keeps the rest. */
  lemma StripKeepsHead(s: string)
    requires s != [] && MarkerLen(s) == 0
    ensures Strip(s) == s <==> Strip(s[1..]) == s[1..]
  {
    assert s == [s[0]] + s[1..];
    assert Strip(s) == [s[0]] + Strip(s[1..]);
    if Strip(s) == s {
      assert Strip(s)[1..] == Strip(s[1..]);
    }
  }

  /** Where the matcher finds nothing at the head, no prefix is a match. */
  lemma NoMarkerAtStart(s: string, j: nat)
    requires MarkerLen(s) == 0 && 0 < j <= |s|
    ensures !IsMarker(s[..j])
  {
    if IsMarker(s[..j]) {
      MarkerLenComplete(s, j);
    }
  }

  /** A name whose first character starts no match, followed by a clean rest, is clean. */
  lemma NoMarkerCons(s: string)
    requires s != [] && MarkerLen(s) == 0 && NoMarker(s[1..])
    ensures NoMarker(s)
  {
    forall i, j
      ensures !MarkerBetween(s, i, j)
    {
      if i == 0 && 0 < j <= |s| {
        assert s[0..j] == s[..j];
        NoMarkerAtStart(s, j);
      } else if 0 < i < j <= |s| {
        assert s[i..j] == s[1..][i - 1..j - 1];
        assert !MarkerBetween(s[1..], i - 1, j - 1);
      }
    }
  }

  lemma SliceOfSlice(s: string, a: nat, b: nat, i: nat, j: nat)
    requires a <= b <= |s| && i <= j <= b - a
    ensures s[a..b][i..j] == s[a + i..a + j]
  {
    forall k | 0 <= k < j - i ensures s[a..b][i..j][k] == s[a + i..a + j][k] {
      assert s[a..b][i..j][k] == s[a..b][i + k] == s[a + i + k];
    }
  }

  /** A slice of a name without a marker has no marker either. */
  lemma NoMarkerSlice(s: string, a: nat, b: nat)
    requires a <= b <= |s| && NoMarker(s)
    ensures NoMarker(s[a..b])
  {
    forall i, j
      ensures !MarkerBetween(s[a..b], i, j)
    {
      if 0 <= i < j <= b - a {
        SliceOfSlice(s, a, b, i, j);
        assert !MarkerBetween(s, a + i, a + j);
      }
    }
  }

  /** Stripping twice equals stripping once whenever the first pass leaves no match. */
  lemma StripIdempotentWhenClean(s: string)
    requires NoMarker(Strip(s))
    ensures Strip(Strip(s)) == Strip(s)
  {
    StripIdentityIff(Strip(s));
  }

  /** A name without '(' carries no marker and is kept as it is. */
  lemma {:induction false} StripNoParen(s: string)
    requires '(' !in s
    ensures Strip(s) == s
    decreases |s|
  {
    if s != [] {
      assert s[0] != '(';
      assert |s| > 1 ==> s[1] != '(';
      assert MarkerLen(s) == 0;
      StripNoParen(s[1..]);
    }
  }

  /** Removing one match can join the text around it into a new match, so a
      single pass does not always leave a clean name and stripping is not
      idempotent: "(Co(Copy)py)" strips to "(Copy)", which strips to "". The
      same holds with any tail `t` that holds no '('. */
  lemma StripNotIdempotent(t: string)
    requires '(' !in t
    ensures Strip("(Co(Copy)py)" + t) == "(Copy)" + t
    ensures MarkerBetween("(Copy)" + t, 0, 6)
    ensures Strip("(Copy)" + t) == t
  {
    StripSample("py)" + t);
    SampleShape(t);
    StripNoParen(t);
    StripBareCopy(t);
    BareCopyIsMarker(t);
  }

  /** The match inside "(Co" + "(Copy)" + tail is removed and the rest is kept. */
  lemma StripSample(tail: string)
    requires '(' !in tail
    ensures Strip(['('] + (['C'] + (['o'] + ("(Copy)" + tail)))) == ['('] + (['C'] + (['o'] + tail))
  {
    StripNoParen(tail);
    StripBareCopy(tail);
    var q := "(Copy)" + tail;
    var s2 := ['o'] + q;
    var s1 := ['C'] + s2;
    var s0 := ['('] + s1;
    CoreLenNoCopy(s0);
    StripKeepsChar('(', s1);
    NoMatchAt('C', s2);
    StripKeepsChar('C', s2);
    NoMatchAt('o', q);
    StripKeepsChar('o', q);
  }

  lemma SampleShape(t: string)
    ensures ['('] + (['C'] + (['o'] + ("(Copy)" + ("py)" + t)))) == "(Co(Copy)py)" + t
    ensures ['('] + (['C'] + (['o'] + ("py)" + t))) == "(Copy)" + t
  {
  }

  /** "(Copy)" followed by anything is a match of length 6. */
  lemma BareCopyMatch(t: string)
    ensures MarkerLen("(Copy)" + t) == 6
  {
    var s := "(Copy)" + t;
    assert s[..5] == "(Copy";
    assert s[5..][0] == ')';
  }

  lemma StripBareCopy(t: string)
    ensures Strip("(Copy)" + t) == Strip(t)
  {
    BareCopyMatch(t);
    assert ("(Copy)" + t)[6..] == t;
  }

  lemma BareCopyIsMarker(t: string)
    ensures MarkerBetween("(Copy)" + t, 0, 6)
  {
    var s := "(Copy)" + t;
    assert s[0..6] == "(Copy)";
    assert s[0..6][..5] == "(Copy";
    assert s[0..6][5..5] == [];
  }

  /** A character that is neither white space nor '(' starts no match. */
  lemma NoMatchAt(c: char, q: string)
    requires c != '(' && !IsSpace(c)
    ensures MarkerLen([c] + q) == 0
  {
    assert ([c] + q)[0] == c;
    assert |[c] + q| >= 5 ==> ([c] + q)[..5][0] == c;
  }

  /** A character that starts no match is kept in front of the stripped rest. */
  lemma StripKeepsChar(c: char, q: string)
    requires MarkerLen([c] + q) == 0
    ensures Strip([c] + q) == [c] + Strip(q)
  {
    assert ([c] + q)[1..] == q;
  }

  /** No core match starts where the text does not begin with "(Copy". */
  lemma CoreLenNoCopy(s: string)
    requires |s| >= 5 && s[3] != 'p'
    ensures CoreLen(s) == 0
    ensures s[0] == '(' ==> MarkerLen(s) == 0
  {
    assert s[..5][3] == s[3];
  }

  /** A text that starts with " (" is stripped the same whatever precedes
      it: stripping distributes over the split in front of it. */
  lemma {:induction false} StripAppend(p: string, x: string)
    requires |x| >= 2 && x[0] == ' ' && x[1] == '('
    ensures Strip(p + x) == Strip(p) + Strip(x)
    decreases |p|
  {
    if p == [] {
      assert p + x == x;
    } else {
      MarkerLenAppend(p, x);
      var n := MarkerLen(p);
      if n > 0 {
        assert (p + x)[n..] == p[n..] + x;
        StripAppend(p[n..], x);
      } else {
        assert (p + x)[1..] == p[1..] + x;
        assert (p + x)[0] == p[0];
        StripAppend(p[1..], x);
        AppendAssoc([p[0]], Strip(p[1..]), Strip(x));
      }
    }
  }

  // The four matchers give the same answer on p and on p + x when x starts
  // with " (": no match that starts in p can run on into such an x.

  lemma CloseLenAppend(r: string, x: string)
    requires |x| >= 2 && x[0] == ' ' && x[1] == '('
    ensures CloseLen(r + x) == CloseLen(r)
  {
    if |r| >= 2 {
      assert (r + x)[0] == r[0] && (r + x)[1] == r[1];
    } else if |r| == 1 {
      assert (r + x)[0] == r[0] && (r + x)[1] == ' ';
    } else {
      assert r + x == x;
    }
  }

  lemma AfterCopyLenAppend(r: string, x: string)
    requires |x| >= 2 && x[0] == ' ' && x[1] == '('
    ensures AfterCopyLen(r + x) == AfterCopyLen(r)
  {
    CloseLenAppend(r, x);
    if |r| >= 1 {
      assert (r + x)[0] == r[0];
      assert (r + x)[1..] == r[1..] + x;
      CloseLenAppend(r[1..], x);
    } else {
      assert r + x == x;
      assert CloseLen(x[1..]) == 0;
    }
  }

  lemma CoreLenAppend(s: string, x: string)
    requires |x| >= 2 && x[0] == ' ' && x[1] == '('
    ensures CoreLen(s + x) == CoreLen(s)
  {
    if |s| >= 5 {
      assert (s + x)[..5] == s[..5];
      assert (s + x)[5..] == s[5..] + x;
      AfterCopyLenAppend(s[5..], x);
    } else {
      assert (s + x)[|s|] == ' ';
      assert |s + x| >= 5 ==> (s + x)[..5] != "(Copy";
    }
  }

  lemma MarkerLenAppend(p: string, x: string)
    requires |x| >= 2 && x[0] == ' ' && x[1] == '('
    requires p != []
    ensures MarkerLen(p + x) == MarkerLen(p)
  {
    assert (p + x)[0] == p[0];
    assert (p + x)[1..] == p[1..] + x;
    CoreLenAppend(p[1..], x);
    CoreLenAppend(p, x);
  }

  // ---------------------------------------------------------------------
  // `name.split('.')` and its inverse

  /** The pieces of `s` between its '.' characters, in order; a name without
      '.' is one piece. */
  function SplitDot(s: string): (parts: seq<string>)
    ensures |parts| >= 1
    ensures forall k :: 0 <= k < |parts| ==> '.' !in parts[k]
    decreases |s|
  {
    if s == [] then [[]]
    else
      var rest := SplitDot(s[1..]);
      if s[0] == '.' then [[]] + rest
      else [[s[0]] + rest[0]] + rest[1..]
  }

  /** The pieces put back together with '.' between them. */
  function JoinDot(parts: seq<string>): string
    requires |parts| >= 1
    decreases |parts|
  {
    if |parts| == 1 then parts[0] else parts[0] + "." + JoinDot(parts[1..])
  }

  /** Splitting loses nothing: joining the pieces gives the name back. */
  lemma {:induction false} JoinSplit(s: string)
    ensures JoinDot(SplitDot(s)) == s
    decreases |s|
  {
    if s != [] {
      JoinSplit(s[1..]);
      var rest := SplitDot(s[1..]);
      if s[0] == '.' {
        assert JoinDot([[]] + rest) == [] + "." + JoinDot(rest);
      } else {
        var parts := [[s[0]] + rest[0]] + rest[1..];
        if |rest| == 1 {
          assert JoinDot(parts) == [s[0]] + rest[0];
        } else {
          assert parts[1..] == rest[1..];
          assert JoinDot(parts) == [s[0]] + rest[0] + "." + JoinDot(rest[1..]);
        }
      }
    }
  }

  /** Splitting a dot-free prefix onto the front of a name extends its first piece. */
  lemma {:induction false} SplitDotPrefix(p: string, t: string)
    requires '.' !in p
    ensures SplitDot(p + t) == [p + SplitDot(t)[0]] + SplitDot(t)[1..]
    decreases |p|
  {
    if p != [] {
      assert p[0] in p;
      assert forall c :: c in p[1..] ==> c in p;
      assert (p + t)[1..] == p[1..] + t;
      SplitDotPrefix(p[1..], t);
      var rest := SplitDot(p[1..] + t);
      assert rest[0] == p[1..] + SplitDot(t)[0];
      assert rest[1..] == SplitDot(t)[1..];
      assert (p + t)[0] == p[0] && p[0] != '.';
      assert [p[0]] + (p[1..] + SplitDot(t)[0]) == p + SplitDot(t)[0];
      assert SplitDot(p + t) == [[p[0]] + rest[0]] + rest[1..];
    } else {
      var parts := SplitDot(t);
      assert p + t == t;
      assert p + parts[0] == parts[0];
      assert [parts[0]] + parts[1..] == parts;
    }
  }

  /** Joining dot-free pieces and splitting again gives the same pieces. */
  lemma {:induction false} SplitJoin(parts: seq<string>)
    requires |parts| >= 1 && forall k :: 0 <= k < |parts| ==> '.' !in parts[k]
    ensures SplitDot(JoinDot(parts)) == parts
    decreases |parts|
  {
    if |parts| == 1 {
      SplitDotPrefix(parts[0], []);
      assert parts[0] + [] == parts[0];
    } else {
      SplitJoin(parts[1..]);
      var t := "." + JoinDot(parts[1..]);
      assert parts[0] + "." + JoinDot(parts[1..]) == parts[0] + t;
      SplitDotPrefix(parts[0], t);
      assert t[1..] == JoinDot(parts[1..]);
      assert SplitDot(t) == [[]] + parts[1..];
      assert parts[0] + [] == parts[0];
    }
  }

  // ---------------------------------------------------------------------
  // `s.includes(p)` and the count of names that include a pattern

  /** `s.includes(p)`: `p` is a prefix of `s` or of one of its suffixes. */
  predicate Contains(s: string, p: string)
    decreases |s|
  {
    p <= s || (|s| > 0 && Contains(s[1..], p))
  }

  /** `p` occurs in `s` starting at position `i`. */
  predicate OccursAt(s: string, p: string, i: int) {
    0 <= i <= |s| - |p| && s[i..i + |p|] == p
  }

  /** `Contains` holds exactly when `p` occurs at some position of `s`. */
  lemma {:induction false} ContainsIff(s: string, p: string)
    ensures Contains(s, p) <==> exists i :: OccursAt(s, p, i)
    decreases |s|
  {
    OccursAtStart(s, p);
    if p <= s {
    } else if |s| == 0 {
    } else {
      ContainsIff(s[1..], p);
      if Contains(s[1..], p) {
        var i :| OccursAt(s[1..], p, i);
        OccursShift(s, p, i + 1);
      }
      if exists i :: OccursAt(s, p, i) {
        var i :| OccursAt(s, p, i);
        OccursShift(s, p, i);
      }
    }
  }

  /** An occurrence at 0 is a prefix. */
  lemma OccursAtStart(s: string, p: string)
    ensures OccursAt(s, p, 0) <==> p <= s
  {
    if |p| <= |s| {
      assert s[0..|p|] == s[..|p|];
    }
  }

  /** An occurrence at `i > 0` is one at `i - 1` in the tail. */
  lemma OccursShift(s: string, p: string, i: int)
    requires |s| > 0 && i > 0
    ensures OccursAt(s, p, i) <==> OccursAt(s[1..], p, i - 1)
  {
    if 0 <= i - 1 <= |s| - 1 - |p| {
      SliceOfSlice(s, 1, |s|, i - 1, i - 1 + |p|);
    }
  }

  /** A name includes a pattern only if it holds every character of it. */
  lemma {:induction false} ContainsChars(s: string, p: string)
    requires Contains(s, p)
    ensures |p| <= |s|
    ensures forall k :: 0 <= k < |p| ==> p[k] in s
    decreases |s|
  {
    if p <= s {
      forall k | 0 <= k < |p| ensures p[k] in s {
        assert s[k] == p[k];
      }
    } else {
      ContainsChars(s[1..], p);
      forall k | 0 <= k < |p| ensures p[k] in s {
        assert p[k] in s[1..];
      }
    }
  }

  /** `names.filter(f => f.includes(p)).length`. */
  function CountContaining(names: seq<string>, p: string): (n: nat)
    ensures n <= |names|
    ensures n == 0 <==> forall k :: 0 <= k < |names| ==> !Contains(names[k], p)
    decreases |names|
  {
    if names == [] then 0
    else
      CountContaining(names[..|names| - 1], p) + (if Contains(names[|names| - 1], p) then 1 else 0)
  }

  /** Appending one name raises the count by one exactly when that name includes the pattern. */
  lemma CountContainingAppend(names: seq<string>, x: string, p: string)
    ensures CountContaining(names + [x], p) == CountContaining(names, p) + (if Contains(x, p) then 1 else 0)
  {
    assert (names + [x])[..|names|] == names;
  }

  // ---------------------------------------------------------------------
  // Decimal rendering of a count, as a template literal does

  function DigitChar(d: nat): (c: char)
    requires d < 10
    ensures IsDigit(c)
  {
    ('0' as int + d) as char
  }

  /** The decimal numeral of `n`, without leading zeros. */
  function Decimal(n: nat): (r: string)
    ensures |r| >= 1
    ensures forall k :: 0 <= k < |r| ==> IsDigit(r[k])
    ensures n < 10 <==> |r| == 1
    ensures r[0] == '0' <==> n == 0
    decreases n
  {
    if n < 10 then [DigitChar(n)] else Decimal(n / 10) + [DigitChar(n % 10)]
  }

  /** The number a numeral denotes. */
  function DigitsValue(s: string): nat
    requires forall k :: 0 <= k < |s| ==> IsDigit(s[k])
    decreases |s|
  {
    if s == [] then 0
    else
      assert IsDigit(s[|s| - 1]);
      DigitsValue(s[..|s| - 1]) * 10 + (s[|s| - 1] as int - '0' as int)
  }

  /** Reading the numeral back gives the number. */
  lemma {:induction false} DecimalRoundTrip(n: nat)
    ensures DigitsValue(Decimal(n)) == n
    decreases n
  {
    if n >= 10 {
      DecimalRoundTrip(n / 10);
      var r := Decimal(n);
      assert r[..|r| - 1] == Decimal(n / 10);
    }
  }

  // ---------------------------------------------------------------------
  // The name of a duplicate

  /** The text placed after the stem: " (Copy)" for the first copy, " (Copy N)" after that. */
  function CopyMarker(count: nat): string {
    if count == 0 then " (Copy)" else " (Copy " + Decimal(count + 1) + ")"
  }

  /** Piece 0 of a (stripped) name. */
  function Stem(name: string): string {
    SplitDot(name)[0]
  }

  /** Piece 1 of a (stripped) name; a name without '.' has no piece 1,
      which a template literal renders as "undefined". */
  function Extension(name: string): string {
    var parts := SplitDot(name);
    if |parts| > 1 then parts[1] else "undefined"
  }

  /** The text whose presence in an existing name marks it as a copy of `stem`. */
  function CopyPattern(stem: string): string {
    stem + " (Copy"
  }

  /** The two template literals of the source, for a given stem and extension. */
  function NameFor(existing: seq<string>, stem: string, ext: string): string {
    var n := CountContaining(existing, CopyPattern(stem));
    if n == 0 then stem + " (Copy)." + ext
    else stem + " (Copy " + Decimal(n + 1) + ")." + ext
  }

  /** The name given to a duplicate of `source` when the batch holds `existing`. */
  function CopyName(existing: seq<string>, source: string): string {
    NameFor(existing, Stem(Strip(source)), Extension(Strip(source)))
  }

  /** The name follows the two cases of the source: "(Copy)" when no
      existing name includes the pattern anywhere, "(Copy N+1)" when N of
      them do. */
  lemma NameForCases(existing: seq<string>, stem: string, ext: string)
    ensures (forall k, i :: 0 <= k < |existing| ==> !OccursAt(existing[k], CopyPattern(stem), i)) ==>
              NameFor(existing, stem, ext) == stem + " (Copy)." + ext
    ensures (exists k, i :: 0 <= k < |existing| && OccursAt(existing[k], CopyPattern(stem), i)) ==>
              var n := CountContaining(existing, CopyPattern(stem));
              n >= 1 && NameFor(existing, stem, ext) == stem + " (Copy " + Decimal(n + 1) + ")." + ext
  {
    var p := CopyPattern(stem);
    if forall k, i :: 0 <= k < |existing| ==> !OccursAt(existing[k], p, i) {
      NoneCounted(existing, p);
    }
    if exists k, i :: 0 <= k < |existing| && OccursAt(existing[k], p, i) {
      var k, i :| 0 <= k < |existing| && OccursAt(existing[k], p, i);
      SomeCounted(existing, p, k, i);
    }
  }

  lemma SomeCounted(existing: seq<string>, p: string, k: int, i: int)
    requires 0 <= k < |existing| && OccursAt(existing[k], p, i)
    ensures CountContaining(existing, p) >= 1
  {
    ContainsIff(existing[k], p);
  }

  lemma NoneCounted(existing: seq<string>, p: string)
    requires forall k, i :: 0 <= k < |existing| ==> !OccursAt(existing[k], p, i)
    ensures CountContaining(existing, p) == 0
  {
    forall k | 0 <= k < |existing| ensures !Contains(existing[k], p) {
      ContainsIff(existing[k], p);
    }
  }

  /** The new name is the stem, the copy marker, '.', and the extension. */
  lemma NameForShape(existing: seq<string>, stem: string, ext: string)
    ensures NameFor(existing, stem, ext)
         == stem + (CopyMarker(CountContaining(existing, CopyPattern(stem))) + ("." + ext))
  {
    var n := CountContaining(existing, CopyPattern(stem));
    if n == 0 {
      FirstCopyShape(stem, ext);
    } else {
      NumberedCopyShape(stem, Decimal(n + 1), ext);
    }
  }

  lemma FirstCopyShape(stem: string, ext: string)
    ensures stem + " (Copy)." + ext == stem + (" (Copy)" + ("." + ext))
  {
    AppendAssoc(stem, " (Copy)", ".");
    assert stem + " (Copy)." == stem + " (Copy)" + ".";
    AppendAssoc(stem, " (Copy)", "." + ext);
    AppendAssoc(stem + " (Copy)", ".", ext);
  }

  lemma NumberedCopyShape(stem: string, d: string, ext: string)
    ensures stem + " (Copy " + d + ")." + ext == stem + ((" (Copy " + d + ")") + ("." + ext))
  {
    var a := " (Copy " + d;
    AppendAssoc(stem, " (Copy ", d);
    AppendAssoc(stem + a, ")", ".");
    assert stem + a + ")." == stem + a + ")" + ".";
    AppendAssoc(stem + a + ")", ".", ext);
    AppendAssoc(stem, a + ")", "." + ext);
    AppendAssoc(stem, a, ")");
  }

  lemma AppendAssoc(a: string, b: string, c: string)
    ensures a + b + c == a + (b + c)
  {
  }

  /** For a dot-free stem and extension, the new name splits into exactly
      two pieces: the marked stem and the extension. */
  lemma NameForParts(existing: seq<string>, stem: string, ext: string)
    requires '.' !in stem && '.' !in ext
    ensures SplitDot(NameFor(existing, stem, ext))
            == [stem + CopyMarker(CountContaining(existing, CopyPattern(stem))), ext]
  {
    var n := CountContaining(existing, CopyPattern(stem));
    NameForShape(existing, stem, ext);
    MarkerDotFree(n);
    var m := CopyMarker(n);
    assert '.' !in stem + m;
    AppendAssoc(stem, m, "." + ext);
    TwoPieces(stem + m, ext);
  }

  lemma MarkerDotFree(count: nat)
    ensures '.' !in CopyMarker(count)
  {
    if count > 0 {
      var d := Decimal(count + 1);
      assert '.' !in d by {
        forall k | 0 <= k < |d| ensures d[k] != '.' {
          assert IsDigit(d[k]);
        }
      }
    }
  }

  /** Two dot-free pieces joined by '.' split back into those pieces. */
  lemma TwoPieces(a: string, b: string)
    requires '.' !in a && '.' !in b
    ensures SplitDot(a + ("." + b)) == [a, b]
  {
    SplitJoin([a, b]);
    assert JoinDot([a, b]) == a + "." + JoinDot([b]);
    AppendAssoc(a, ".", b);
  }

  /** The new name carries the pattern, so the next duplicate of the same stem counts it. */
  lemma NameForIsCounted(existing: seq<string>, stem: string, ext: string)
    ensures Contains(NameFor(existing, stem, ext), CopyPattern(stem))
    ensures CountContaining(existing + [NameFor(existing, stem, ext)], CopyPattern(stem))
            == CountContaining(existing, CopyPattern(stem)) + 1
  {
    var p := CopyPattern(stem);
    var name := NameFor(existing, stem, ext);
    var m := CopyMarker(CountContaining(existing, p));
    NameForShape(existing, stem, ext);
    assert m == " (Copy" + m[6..];
    assert name == p + (m[6..] + ("." + ext));
    assert p <= name;
    CountContainingAppend(existing, name, p);
  }

  /** Duplicating a source with the same stem again numbers the next copy one higher. */
  lemma NextCopyNumber(existing: seq<string>, stem: string, ext: string, ext': string)
    ensures var n := CountContaining(existing, CopyPattern(stem));
            NameFor(existing + [NameFor(existing, stem, ext)], stem, ext')
            == stem + " (Copy " + Decimal(n + 2) + ")." + ext'
  {
    NameForIsCounted(existing, stem, ext);
  }

  /** The marker a duplicate receives is one match of the pattern, as long as
      its number has one digit. */
  lemma CopyMarkerMatches(count: nat, rest: string)
    requires count < 9
    ensures |CopyMarker(count)| >= 2 && CopyMarker(count)[0] == ' ' && CopyMarker(count)[1] == '('
    ensures MarkerLen(CopyMarker(count) + rest) == |CopyMarker(count)|
  {
    if count == 0 {
      FirstMarkerMatches(rest);
    } else {
      var d := Decimal(count + 1);
      assert |d| == 1 && IsDigit(d[0]);
      NumberedMarkerMatches(d, rest);
    }
  }

  lemma FirstMarkerMatches(rest: string)
    ensures MarkerLen(" (Copy)" + rest) == 7
  {
    var s := " (Copy)" + rest;
    assert s[1..][..5] == "(Copy";
    assert s[1..][5..][0] == ')';
  }

  lemma NumberedMarkerMatches(d: string, rest: string)
    requires |d| == 1 && IsDigit(d[0])
    ensures MarkerLen(" (Copy " + d + ")" + rest) == 9
  {
    var s := " (Copy " + d + ")" + rest;
    assert s[1..][..5] == "(Copy";
    assert s[1..][5..][0] == ' ' && s[1..][5..][1..][0] == d[0] && s[1..][5..][1..][1] == ')';
  }

  /** Stripping a name made of a stem, a marker, '.', and an extension
      removes the marker and strips the stem and the extension separately. */
  lemma StripAroundMarker(stem: string, m: string, ext: string)
    requires |m| >= 2 && m[0] == ' ' && m[1] == '('
    requires MarkerLen(m + ("." + ext)) == |m|
    ensures Strip(stem + (m + ("." + ext))) == Strip(stem) + ("." + Strip(ext))
  {
    StripAppend(stem, m + ("." + ext));
    StripMarkerFirst(m, "." + ext);
    StripDotFirst(ext);
  }

  lemma StripMarkerFirst(m: string, rest: string)
    requires |m| > 0 && MarkerLen(m + rest) == |m|
    ensures Strip(m + rest) == Strip(rest)
  {
    assert (m + rest)[|m|..] == rest;
  }

  lemma StripDotFirst(ext: string)
    ensures Strip("." + ext) == "." + Strip(ext)
  {
    assert MarkerLen("." + ext) == 0;
    assert ("." + ext)[1..] == ext;
  }

  /** Stripping the new name takes its marker out again: what is left is the
      stripped stem and extension around one '.'. */
  lemma NameForStripsBack(existing: seq<string>, stem: string, ext: string)
    requires CountContaining(existing, CopyPattern(stem)) < 9
    ensures Strip(NameFor(existing, stem, ext)) == Strip(stem) + "." + Strip(ext)
  {
    var n := CountContaining(existing, CopyPattern(stem));
    NameForShape(existing, stem, ext);
    CopyMarkerMatches(n, "." + ext);
    StripAroundMarker(stem, CopyMarker(n), ext);
    AppendAssoc(Strip(stem), ".", Strip(ext));
  }

  /** For a clean stripped name with exactly one '.', and fewer than nine
      earlier copies, the duplicate's name strips back to the source's. */
  lemma CopyNameKeepsBaseName(existing: seq<string>, source: string)
    requires NoMarker(Strip(source))
    requires |SplitDot(Strip(source))| == 2
    requires CountContaining(existing, CopyPattern(Stem(Strip(source)))) < 9
    ensures Strip(CopyName(existing, source)) == Strip(source)
  {
    var sn := Strip(source);
    CleanPieces(sn);
    NameForStripsBack(existing, SplitDot(sn)[0], SplitDot(sn)[1]);
  }

  /** The two pieces of a clean name with one '.' are clean and rebuild it. */
  lemma CleanPieces(sn: string)
    requires NoMarker(sn) && |SplitDot(sn)| == 2
    ensures var parts := SplitDot(sn);
            sn == parts[0] + "." + parts[1] && Strip(parts[0]) == parts[0] && Strip(parts[1]) == parts[1]
  {
    var parts := SplitDot(sn);
    JoinSplit(sn);
    assert JoinDot(parts) == parts[0] + "." + JoinDot(parts[1..]);
    assert parts[1..] == [parts[1]];
    CleanSlice(sn, parts[0], parts[1]);
  }

  /** Both sides of the '.' of a clean name are clean. */
  lemma CleanSlice(sn: string, a: string, b: string)
    requires NoMarker(sn) && sn == a + "." + b
    ensures Strip(a) == a && Strip(b) == b
  {
    NoMarkerSlice(sn, 0, |a|);
    assert sn[0..|a|] == a;
    NoMarkerSlice(sn, |a| + 1, |sn|);
    assert sn[|a| + 1..|sn|] == b;
    StripIdentityIff(a);
    StripIdentityIff(b);
  }

  // ---------------------------------------------------------------------
  // Worked cases, for any stem and extension free of '.' and '('

  /** A name without '(' never includes a copy pattern, so one such name counts nothing. */
  lemma NoParenNotCounted(x: string, stem: string)
    requires '(' !in x
    ensures !Contains(x, CopyPattern(stem))
    ensures CountContaining([x], CopyPattern(stem)) == 0
  {
    var p := CopyPattern(stem);
    assert p[|stem| + 1] == '(';
    if Contains(x, p) {
      ContainsChars(x, p);
    }
    CountContainingAppend([], x, p);
    assert [] + [x] == [x];
  }

  /** A plain name with one '.' splits into its stem and extension and strips to itself. */
  lemma PlainName(stem: string, ext: string)
    requires '(' !in stem && '(' !in ext && '.' !in stem && '.' !in ext
    ensures Strip(stem + "." + ext) == stem + "." + ext
    ensures Stem(stem + "." + ext) == stem && Extension(stem + "." + ext) == ext
  {
    StripNoParen(stem + "." + ext);
    TwoPieces(stem, ext);
    AppendAssoc(stem, ".", ext);
  }

  /** Duplicating "report.txt" gives "report (Copy).txt"; duplicating it again,
      or duplicating that copy, gives "report (Copy 2).txt". */
  lemma FirstAndSecondCopy(stem: string, ext: string)
    requires '(' !in stem && '(' !in ext && '.' !in stem && '.' !in ext
    ensures var source := stem + "." + ext;
            CopyName([source], source) == stem + " (Copy)." + ext
    ensures var source := stem + "." + ext;
            var first := stem + " (Copy)." + ext;
            CopyName([source, first], source) == stem + " (Copy 2)." + ext &&
            CopyName([source, first], first) == stem + " (Copy 2)." + ext
  {
    FirstCopy(stem, ext);
    SecondCopy(stem, ext);
    CopyOfCopy(stem, ext);
  }

  lemma FirstCopy(stem: string, ext: string)
    requires '(' !in stem && '(' !in ext && '.' !in stem && '.' !in ext
    ensures CopyName([stem + "." + ext], stem + "." + ext) == stem + " (Copy)." + ext
  {
    PlainName(stem, ext);
    NoParenNotCounted(stem + "." + ext, stem);
  }

  /** With the plain name and its first copy in the batch, the next copy of the
      plain name is number 2. */
  lemma SecondCopy(stem: string, ext: string)
    requires '(' !in stem && '(' !in ext && '.' !in stem && '.' !in ext
    ensures var source := stem + "." + ext;
            CopyName([source, stem + " (Copy)." + ext], source) == stem + " (Copy 2)." + ext
  {
    var source := stem + "." + ext;
    PlainName(stem, ext);
    SecondCopyName(stem, ext);
  }

  lemma SecondCopyName(stem: string, ext: string)
    requires '(' !in stem && '(' !in ext
    ensures var source := stem + "." + ext;
            NameFor([source, stem + " (Copy)." + ext], stem, ext) == stem + " (Copy 2)." + ext
  {
    var source := stem + "." + ext;
    NoParenNotCounted(source, stem);
    var first := NameFor([source], stem, ext);
    NameForIsCounted([source], stem, ext);
    assert [source] + [first] == [source, stem + " (Copy)." + ext];
    SecondCopyText(stem, ext);
  }

  lemma SecondCopyText(stem: string, ext: string)
    ensures stem + " (Copy " + Decimal(2) + ")." + ext == stem + " (Copy 2)." + ext
  {
    assert Decimal(2) == "2";
    AppendAssoc(stem, " (Copy ", "2");
    AppendAssoc(stem, " (Copy 2", ").");
    assert " (Copy " + "2" + ")." == " (Copy 2).";
    AppendAssoc(stem + " (Copy ", "2", ").");
  }

  /** Duplicating the first copy also gives copy number 2, since its marker is stripped first. */
  lemma CopyOfCopy(stem: string, ext: string)
    requires '(' !in stem && '(' !in ext && '.' !in stem && '.' !in ext
    ensures var source := stem + "." + ext;
            var first := stem + " (Copy)." + ext;
            CopyName([source, first], first) == stem + " (Copy 2)." + ext
  {
    var source := stem + "." + ext;
    var first := stem + " (Copy)." + ext;
    FirstCopyStrips(stem, ext);
    PlainName(stem, ext);
    CopyNameSameStrip([source, first], first, source);
    SecondCopy(stem, ext);
  }

  /** The copy name depends on the source only through its stripped name. */
  lemma CopyNameSameStrip(existing: seq<string>, a: string, b: string)
    requires Strip(a) == Strip(b)
    ensures CopyName(existing, a) == CopyName(existing, b)
  {
  }

  /** The first copy strips back to the plain name it came from. */
  lemma FirstCopyStrips(stem: string, ext: string)
    requires '(' !in stem && '(' !in ext && '.' !in stem && '.' !in ext
    ensures Strip(stem + " (Copy)." + ext) == stem + "." + ext
  {
    var source := stem + "." + ext;
    NoParenNotCounted(source, stem);
    NameForStripsBack([source], stem, ext);
    StripNoParen(stem);
    StripNoParen(ext);
  }

  /** A name without '.' has no piece 1, so its copy ends in ".undefined":
      "README" becomes "README (Copy).undefined". */
  lemma NoDotCopy(name: string)
    requires '(' !in name && '.' !in name
    ensures CopyName([name], name) == name + " (Copy).undefined"
  {
    StripNoParen(name);
    SplitDotPrefix(name, []);
    assert name + [] == name;
    NoParenNotCounted(name, name);
    UndefinedText(name);
  }

  lemma UndefinedText(name: string)
    ensures name + " (Copy)." + "undefined" == name + " (Copy).undefined"
  {
    AppendAssoc(name, " (Copy).", "undefined");
  }

  /** Only pieces 0 and 1 are kept: "archive.tar.gz" becomes "archive (Copy).tar". */
  lemma ManyDotsCopy(a: string, b: string, c: string)
    requires '(' !in a && '(' !in b && '(' !in c
    requires '.' !in a && '.' !in b && '.' !in c
    ensures var source := a + "." + b + "." + c;
            CopyName([source], source) == a + " (Copy)." + b
  {
    var source := a + "." + b + "." + c;
    StripNoParen(source);
    ThreePieces(a, b, c);
    NoParenNotCounted(source, a);
  }

  lemma ThreePieces(a: string, b: string, c: string)
    requires '.' !in a && '.' !in b && '.' !in c
    ensures SplitDot(a + "." + b + "." + c) == [a, b, c]
  {
    SplitJoin([a, b, c]);
    assert [a, b, c][1..] == [b, c];
    assert JoinDot([b, c]) == b + "." + JoinDot([c]);
    assert JoinDot([a, b, c]) == a + "." + JoinDot([b, c]);
    AppendAssoc(a + ".", b, ".");
    AppendAssoc(a + ".", b + ".", c);
    AppendAssoc(a + ".", b, "." + c);
    AppendAssoc(a, ".", b + "." + c);
    AppendAssoc(b, ".", c);
  }

  /** A numeral of two digits or more. */
  predicate LongNumeral(d: string) {
    |d| >= 2 && forall k :: 0 <= k < |d| ==> IsDigit(d[k])
  }

  /** A marker with two digits or more is not a match, since `\d?` takes
      one digit: from the tenth copy on, "notes (Copy 10).txt" keeps its
      marker when it is duplicated. */
  lemma LongMarkerKept(d: string, rest: string)
    requires LongNumeral(d)
    ensures MarkerLen(" (Copy " + d + ")" + rest) == 0
  {
    var t := d[2..] + ")" + rest;
    assert IsDigit(d[0]) && IsDigit(d[1]);
    LeadingDigitsRegroup(d, rest);
    TwoLeadingDigitsKept(d[..2], t);
  }

  lemma LeadingDigitsRegroup(d: string, rest: string)
    requires |d| >= 2
    ensures " (Copy " + d + ")" + rest == " (Copy " + d[..2] + (d[2..] + ")" + rest)
  {
    assert d == d[..2] + d[2..];
    AppendAssoc(" (Copy ", d[..2], d[2..]);
    AppendAssoc(" (Copy " + d[..2], d[2..], ")");
    AppendAssoc(" (Copy " + d[..2], d[2..] + ")", rest);
    AppendAssoc(d[2..], ")", rest);
  }

  /** Two digits after "(Copy " leave no match, whatever follows them. */
  lemma TwoLeadingDigitsKept(e: string, t: string)
    requires |e| == 2 && IsDigit(e[0]) && IsDigit(e[1])
    ensures MarkerLen(" (Copy " + e + t) == 0
  {
    var s := " (Copy " + e + t;
    assert s[1..][..5] == "(Copy";
    var r := s[1..][5..];
    assert r[0] == ' ' && r[1] == e[0] && r[2] == e[1];
    assert r[1..][0] == e[0] && r[1..][1] == e[1];
    assert s[..5][0] == ' ';
  }

  /** Hence such a marker survives the strip that the next duplicate
      applies: for a stem and a rest without '(', stripping
      "stem (Copy N)rest" with a numeral N of two digits or more changes
      nothing. */
  lemma LongMarkerSurvives(stem: string, d: string, rest: string)
    requires LongNumeral(d)
    requires '(' !in stem && '(' !in rest
    ensures var x := " (Copy " + d + ")" + rest;
            Strip(stem + x) == stem + x
  {
    var x := " (Copy " + d + ")" + rest;
    assert x[0] == ' ' && x[1] == '(';
    StripAppend(stem, x);
    StripNoParen(stem);
    LongTailKept(d, rest);
  }

  lemma LongTailKept(d: string, rest: string)
    requires LongNumeral(d)
    requires '(' !in rest
    ensures Strip(" (Copy " + d + ")" + rest) == " (Copy " + d + ")" + rest
  {
    var y := "(Copy " + d + ")" + rest;
    MarkerSplit(d, rest);
    LongMarkerKept(d, rest);
    StripKeepsChar(' ', y);
    OpenParenNoMatch(d, rest);
    StripKeepsChar('(', "Copy " + d + ")" + rest);
    AfterParenNoParen(d, rest);
    StripNoParen("Copy " + d + ")" + rest);
  }

  lemma MarkerSplit(d: string, rest: string)
    ensures " (Copy " + d + ")" + rest == [' '] + ("(Copy " + d + ")" + rest)
    ensures "(Copy " + d + ")" + rest == ['('] + ("Copy " + d + ")" + rest)
  {
    assert " (Copy " == [' '] + "(Copy ";
    assert "(Copy " == ['('] + "Copy ";
  }

  lemma OpenParenNoMatch(d: string, rest: string)
    requires LongNumeral(d)
    ensures MarkerLen("(Copy " + d + ")" + rest) == 0
  {
    var y := "(Copy " + d + ")" + rest;
    assert y[..5] == "(Copy";
    var r := y[5..];
    assert r[0] == ' ' && r[1] == d[0] && r[2] == d[1];
    assert IsDigit(d[0]) && IsDigit(d[1]);
    assert r[1..][0] == d[0] && r[1..][1] == d[1];
  }

  lemma AfterParenNoParen(d: string, rest: string)
    requires LongNumeral(d)
    requires '(' !in rest
    ensures '(' !in "Copy " + d + ")" + rest
  {
    var z := "Copy " + d + ")" + rest;
    forall k | 0 <= k < |z| ensures z[k] != '(' {
      if k >= 6 + |d| {
        assert z[k] == rest[k - 6 - |d|];
      } else if 5 <= k < 5 + |d| {
        assert z[k] == d[k - 5];
        assert IsDigit(d[k - 5]);
      }
    }
  }
}
