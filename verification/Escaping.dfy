/** The string helpers of string.hpp: replacing, escaping, quoting and joining. */
module Escaping {
  import opened Options

  predicate HasPrefix(s: string, f: string) {
    |f| <= |s| && s[..|f|] == f
  }

  /** `f` does not occur in front of position `n`. */
  predicate NoneBefore(s: string, f: string, n: nat) {
    forall i :: 0 <= i < n && i <= |s| ==> !HasPrefix(s[i..], f)
  }

  /** The first occurrence of `f`, if there is one. */
  function FindFirst(s: string, f: string): (r: Option<nat>)
    ensures r.Some? ==> r.value + |f| <= |s| && HasPrefix(s[r.value..], f)
    ensures NoneBefore(s, f, if r.Some? then r.value else |s| + 1)
    decreases |s|
  {
    if HasPrefix(s, f) then
      assert s[0..] == s;
      Some(0)
    else if s == "" then None
    else
      assert forall i :: 1 <= i <= |s| ==> s[i..] == s[1..][i - 1..];
      match FindFirst(s[1..], f)
      case None => None
      case Some(i) => Some(i + 1)
  }

  /** `replace_substrings`: left to right, without overlaps, and without looking again at what
      has been put in. */
  function Replace(s: string, f: string, r: string): string
    requires f != ""
    decreases |s|
  {
    if s == "" then ""
    else if HasPrefix(s, f) then r + Replace(s[|f|..], f, r)
    else [s[0]] + Replace(s[1..], f, r)
  }

  lemma ReplaceCons(s: string, f: string, r: string)
    requires f != "" && s != "" && !HasPrefix(s, f)
    ensures Replace(s, f, r) == [s[0]] + Replace(s[1..], f, r)
  {
  }

  lemma ReplaceHit(s: string, f: string, r: string)
    requires f != "" && HasPrefix(s, f)
    ensures Replace(s, f, r) == r + Replace(s[|f|..], f, r)
  {
  }

  /** Up to the first occurrence nothing changes. */
  lemma {:induction false} ReplaceSkips(s: string, f: string, r: string, n: nat)
    requires f != "" && n <= |s| && NoneBefore(s, f, n)
    ensures Replace(s, f, r) == s[..n] + Replace(s[n..], f, r)
  {
    hide Replace, HasPrefix;
    assert s[0..] == s;
    if n > 0 {
      assert forall i :: 0 <= i < n - 1 ==> s[1..][i..] == s[i + 1..];
      ReplaceCons(s, f, r);
      ReplaceSkips(s[1..], f, r, n - 1);
      assert s[1..][n - 1..] == s[n..];
      Assoc([s[0]], s[1..][..n - 1], Replace(s[n..], f, r));
      assert s[..n] == [s[0]] + s[1..][..n - 1];
    }
  }

  lemma {:induction false} ReplaceNothing(s: string, f: string, r: string)
    requires f != "" && NoneBefore(s, f, |s| + 1)
    ensures Replace(s, f, r) == s
  {
    ReplaceSkips(s, f, r, |s|);
    assert s[..|s|] == s;
  }

  lemma ReplaceStep(s: string, f: string, r: string)
    requires f != ""
    ensures match FindFirst(s, f)
            case None => Replace(s, f, r) == s
            case Some(p) => Replace(s, f, r) == s[..p] + r + Replace(s[p + |f|..], f, r)
  {
    hide *;
    var found := FindFirst(s, f);
    if found.None? {
      ReplaceNothing(s, f, r);
    } else {
      ReplaceAt(s, f, r, found.value);
    }
  }

  lemma ReplaceAt(s: string, f: string, r: string, p: nat)
    requires f != "" && p + |f| <= |s| && HasPrefix(s[p..], f) && NoneBefore(s, f, p)
    ensures Replace(s, f, r) == s[..p] + r + Replace(s[p + |f|..], f, r)
  {
    hide Replace, HasPrefix;
    ReplaceSkips(s, f, r, p);
    hide *;
    var t, rest := s[p..], s[p + |f|..];
    ReplaceHit(t, f, r);
    assert t[|f|..] == rest;
    Assoc(s[..p], r, Replace(rest, f, r));
  }

  lemma Assoc(a: string, b: string, c: string)
    ensures a + b + c == a + (b + c)
  {
  }

  /** The string is changed in place, occurrence by occurrence. */
  method ReplaceSubstrings(s: string, f: string, r: string) returns (t: string)
    requires f != ""
    ensures t == Replace(s, f, r)
  {
    hide Replace, HasPrefix;
    var before, rest := "", s;
    while true
      invariant before + Replace(rest, f, r) == Replace(s, f, r)
      decreases |rest|
    {
      var pos := FindFirst(rest, f);
      ReplaceStep(rest, f, r);
      if pos == None {
        return before + rest;
      }
      var p := pos.value;
      Assoc(before, rest[..p] + r, Replace(rest[p + |f|..], f, r));
      before := before + (rest[..p] + r);
      rest := rest[p + |f|..];
    }
  }

  // ---------------------------------------------------------------- escaping

  /** `escaped`: every escape string is doubled, then each mapped string gives way to the escape
      string followed by what it is mapped to, entry by entry. */
  function Escaped(s: string, esc: string, m: seq<(string, string)>): string
    requires forall p :: p in m ==> p.1 != ""
  {
    ReplaceAll(if esc == "" then s else Replace(s, esc, esc + esc), esc, m)
  }

  function ReplaceAll(s: string, esc: string, m: seq<(string, string)>): string
    requires forall p :: p in m ==> p.1 != ""
    decreases |m|
  {
    if m == [] then s
    else
      assert m[0] in m;
      ReplaceAll(Replace(s, m[0].1, esc + m[0].0), esc, m[1..])
  }

  method Escape(s: string, esc: string, m: seq<(string, string)>) returns (ret: string)
    requires forall p :: p in m ==> p.1 != ""
    ensures ret == Escaped(s, esc, m)
  {
    ret := s;
    if esc != "" {
      ret := ReplaceSubstrings(ret, esc, esc + esc);
    }
    var i := 0;
    assert m[0..] == m;
    while i < |m|
      invariant 0 <= i <= |m|
      invariant ReplaceAll(ret, esc, m[i..]) == Escaped(s, esc, m)
    {
      assert m[i] in m && m[i..][0] == m[i] && m[i..][1..] == m[i + 1..];
      ret := ReplaceSubstrings(ret, m[i].1, esc + m[i].0);
      i := i + 1;
    }
  }

  /** `unescaped` with an empty map. After an escape string one character is skipped, and then
      one more escape string if it comes next. */
  function Unescaped(s: string, esc: string): string
    requires esc != ""
    decreases |s|
  {
    match FindFirst(s, esc)
    case None => s
    case Some(p) => s[..p] + esc + Unescaped(AfterEscape(s[p + 1..], esc), esc)
  }

  function AfterEscape(s: string, esc: string): (r: string)
    ensures |r| <= |s|
  {
    if HasPrefix(s, esc) then s[|esc|..] else s
  }

  method Unescape(s: string, esc: string) returns (ret: string)
    requires esc != ""
    ensures ret == Unescaped(s, esc)
  {
    hide HasPrefix;
    ret := "";
    var str := s;
    while true
      invariant ret + Unescaped(str, esc) == Unescaped(s, esc)
      decreases |str|
    {
      ghost var soFar, was := ret, str;
      var pos := FindFirst(str, esc);
      ret := ret + (if pos.Some? then str[..pos.value] else str);
      if pos == None {
        break;
      }
      str := str[pos.value + 1..];
      ret := ret + esc;
      str := AfterEscape(str, esc);
      ghost var tail := Unescaped(str, esc);
      assert Unescaped(was, esc) == was[..pos.value] + esc + tail;
      Assoc(soFar, was[..pos.value], esc);
      Assoc(soFar, was[..pos.value] + esc, tail);
    }
  }

  // ---------------------------------------------------------------- when escaping can be undone

  function Doubled(s: string, e: string): string
    requires e != ""
  {
    Replace(s, e, e + e)
  }

  predicate Occurs(e: string, s: string) {
    exists i :: 0 <= i <= |s| && HasPrefix(s[i..], e)
  }

  lemma UnescapedHit(t: string, e: string)
    requires e != "" && HasPrefix(t, e)
    ensures Unescaped(t, e) == e + Unescaped(AfterEscape(t[1..], e), e)
  {
    assert t[0..] == t;
    assert FindFirst(t, e) == Some(0);
    assert t[..0] + e == e;
  }

  lemma FindFirstCons(x: char, rest: string, e: string)
    requires !HasPrefix([x] + rest, e)
    ensures var r := FindFirst(rest, e);
            FindFirst([x] + rest, e) == if r.Some? then Some(r.value + 1) else None
  {
    hide HasPrefix, NoneBefore;
    assert ([x] + rest)[1..] == rest;
  }

  lemma UnescapedCons(x: char, rest: string, e: string)
    requires e != "" && !HasPrefix([x] + rest, e)
    ensures Unescaped([x] + rest, e) == [x] + Unescaped(rest, e)
  {
    hide HasPrefix, NoneBefore, FindFirst;
    var t := [x] + rest;
    FindFirstCons(x, rest, e);
    var found := FindFirst(rest, e);
    if found.Some? {
      var p := found.value;
      var tail := Unescaped(AfterEscape(rest[p + 1..], e), e);
      assert t[..p + 1] == [x] + rest[..p];
      assert t[p + 2..] == rest[p + 1..];
      Assoc([x], rest[..p], e);
      Assoc([x], rest[..p] + e, tail);
    }
  }

  lemma {:induction false} UnescapedSkips(a: string, y: string, e: string)
    requires e != "" && NoneBefore(a + y, e, |a|)
    ensures Unescaped(a + y, e) == a + Unescaped(y, e)
  {
    hide HasPrefix, Unescaped;
    if a == "" {
      assert a + y == y;
    } else {
      var b := a[1..];
      assert (a + y)[0..] == [a[0]] + (b + y) == a + y;
      assert forall i :: 0 <= i < |b| ==> (b + y)[i..] == (a + y)[i + 1..];
      UnescapedCons(a[0], b + y, e);
      UnescapedSkips(b, y, e);
      assert [a[0]] + (b + Unescaped(y, e)) == a + Unescaped(y, e);
    }
  }

  /** Escaping never shortens a string, and lengthens one in which there is something to
      escape. */
  lemma {:induction false} DoubledIsLonger(s: string, e: string)
    requires e != ""
    ensures |Doubled(s, e)| >= |s|
    ensures Occurs(e, s) ==> |Doubled(s, e)| > |s|
    decreases |s|
  {
    if HasPrefix(s, e) {
      DoubledIsLonger(s[|e|..], e);
    } else if s != "" {
      DoubledIsLonger(s[1..], e);
      if Occurs(e, s) {
        var i :| 0 <= i <= |s| && HasPrefix(s[i..], e);
        assert s[0..] == s && s[1..][i - 1..] == s[i..];
      }
    }
  }

  predicate Uniform(e: string) {
    forall i :: 0 <= i < |e| ==> e[i] == e[0]
  }

  /** An escape string that is not one character over and over never follows itself by one
      place, so that unescaping takes nothing away. */
  lemma {:induction false} UnescapedKeepsLength(t: string, e: string)
    requires |e| >= 2 && !Uniform(e)
    ensures |Unescaped(t, e)| >= |t|
    decreases |t|
  {
    if HasPrefix(t, e) {
      UnescapedHit(t, e);
      var rest := t[1..];
      if HasPrefix(rest, e) {
        ShiftedIsUniform(t, e);
      }
      UnescapedKeepsLength(rest, e);
    } else if t == "" {
      assert FindFirst(t, e) == None;
    } else {
      UnescapedKeepsLength(t[1..], e);
      assert t == [t[0]] + t[1..];
      UnescapedCons(t[0], t[1..], e);
    }
  }

  lemma ShiftedIsUniform(t: string, e: string)
    requires e != "" && HasPrefix(t, e) && HasPrefix(t[1..], e)
    ensures Uniform(e)
  {
    var i := 0;
    while i < |e|
      invariant 0 <= i <= |e|
      invariant forall k :: 0 <= k < i ==> e[k] == e[0]
    {
      if i > 0 {
        assert e[i] == t[..|e|][i] == t[i] == t[1..][..|e|][i - 1] == e[i - 1];
      }
      i := i + 1;
    }
  }

  function Rep(c: char, n: nat): string {
    seq(n, _ => c)
  }

  lemma RepSplit(c: char, a: nat, b: nat, y: string)
    ensures Rep(c, a) + (Rep(c, b) + y) == Rep(c, a + b) + y
  {
  }

  lemma RepPrefix(c: char, n: nat, k: nat, y: string)
    requires y == "" || y[0] != c
    ensures HasPrefix(Rep(c, n) + y, Rep(c, k)) <==> k <= n
  {
    var t := Rep(c, n) + y;
    if k <= n {
      assert t[..k] == Rep(c, k);
    } else if k <= |t| {
      assert t[..k][n] == y[0];
    }
  }

  /** How often unescaping a run of `n` characters takes one away. */
  function Hits(n: nat, k: nat): (h: nat)
    ensures h <= n
  {
    if n <= k then 0 else 1 + Hits(n - k - 1, k)
  }

  /** A run of `n` characters gives back all but one in `k + 1` of them. */
  lemma {:induction false} UnescapedRun(c: char, n: nat, k: nat, y: string)
    requires k >= 2 && (y == "" || y[0] != c)
    ensures |Unescaped(Rep(c, n) + y, Rep(c, k))| >= n - Hits(n, k) + |Unescaped(y, Rep(c, k))|
    decreases n
  {
    hide HasPrefix, Unescaped;
    var e, t := Rep(c, k), Rep(c, n) + y;
    if n < k {
      forall i | 0 <= i < n
        ensures !HasPrefix(t[i..], e)
      {
        assert t[i..] == Rep(c, n - i) + y;
        RepPrefix(c, n - i, k, y);
      }
      UnescapedSkips(Rep(c, n), y, e);
    } else {
      RepPrefix(c, n, k, y);
      UnescapedHit(t, e);
      assert t[1..] == Rep(c, n - 1) + y;
      RepPrefix(c, n - 1, k, y);
      if n == k {
        UnescapedRun(c, k - 1, k, y);
      } else {
        assert t[1..][k..] == Rep(c, n - 1 - k) + y;
        UnescapedRun(c, n - 1 - k, k, y);
      }
    }
  }

  /** Length of the run of `c` at the start. */
  function Leading(s: string, c: char): (n: nat)
    ensures n <= |s| && s[..n] == Rep(c, n) && (n < |s| ==> s[n] != c)
  {
    if s == "" || s[0] != c then 0 else 1 + Leading(s[1..], c)
  }

  /** Unescaping a run of `j` characters and an escaped string: half of the run is left over
      at least. */
  lemma {:induction false} UnescapedLeavesHalf(c: char, j: nat, k: nat, b: string)
    requires k >= 2
    ensures |Unescaped(Rep(c, j) + Doubled(b, Rep(c, k)), Rep(c, k))| >= |b| + (j + 1) / 2
    decreases |b|
  {
    hide Replace, Unescaped, Rep;
    var e := Rep(c, k);
    RepLength(c, k);
    if HasPrefix(b, e) {
      ReplaceHit(b, e, e + e);
      var y := Doubled(b[k..], e);
      TwoMore(c, j, k, y);
      UnescapedLeavesHalf(c, j + 2 * k, k, b[k..]);
    } else {
      var i := Leading(b, c);
      var rest := b[i..];
      ShortRun(b, c, k);
      var y := Doubled(rest, e);
      RepSplit(c, j, i, y);
      DoubledStart(rest, c, k);
      UnescapedRun(c, j + i, k, y);
      RestIsKept(c, k, rest);
      HalfBound(i, j, k);
    }
  }

  lemma RepLength(c: char, k: nat)
    ensures |Rep(c, k)| == k
  {
  }

  lemma TwoMore(c: char, j: nat, k: nat, y: string)
    ensures Rep(c, j) + (Rep(c, k) + Rep(c, k) + y) == Rep(c, j + 2 * k) + y
  {
  }

  lemma ShortRun(b: string, c: char, k: nat)
    requires k > 0 && !HasPrefix(b, Rep(c, k))
    ensures var i := Leading(b, c);
            i < k && Doubled(b, Rep(c, k)) == Rep(c, i) + Doubled(b[i..], Rep(c, k))
  {
    var i, e := Leading(b, c), Rep(c, k);
    var y := b[i..];
    assert b == Rep(c, i) + y;
    RepPrefix(c, i, k, y);
    forall m | 0 <= m < i
      ensures !HasPrefix(b[m..], e)
    {
      assert b[m..] == Rep(c, i - m) + y;
      RepPrefix(c, i - m, k, y);
    }
    ReplaceSkips(b, e, e + e, i);
  }

  lemma DoubledStart(s: string, c: char, k: nat)
    requires k > 0 && (s == "" || s[0] != c)
    ensures var y := Doubled(s, Rep(c, k));
            if s == "" then y == "" else y == [s[0]] + Doubled(s[1..], Rep(c, k))
  {
  }

  lemma {:induction false} RestIsKept(c: char, k: nat, s: string)
    requires k >= 2 && (s == "" || s[0] != c)
    ensures |Unescaped(Doubled(s, Rep(c, k)), Rep(c, k))| >= |s|
    decreases |s|, 0
  {
    DoubledStart(s, c, k);
    if s != "" {
      var e, y := Rep(c, k), Doubled(s[1..], Rep(c, k));
      RepPrefix(c, 0, k, [s[0]] + y);
      assert Rep(c, 0) + ([s[0]] + y) == [s[0]] + y;
      UnescapedCons(s[0], y, e);
      UnescapedLeavesHalf(c, 0, k, s[1..]);
      assert Rep(c, 0) + y == y;
    }
  }

  lemma {:induction false} HalfBound(i: nat, j: nat, k: nat)
    requires i < k && k >= 2
    ensures Hits(j + i, k) <= j / 2
    decreases j
  {
    if j + i > k {
      HalfBound(0, j + i - k - 1, k);
    }
  }

  /** A longer escape string that occurs is not put back as it was: the result is too long. */
  lemma LongEscapeIsLost(s: string, e: string)
    requires |e| >= 2 && Occurs(e, s)
    ensures |Unescaped(Doubled(s, e), e)| > |s|
  {
    if Uniform(e) {
      var c, k := e[0], |e|;
      assert e == Rep(c, k);
      var at := FindFirst(s, e).value;
      UniformIsLost(s, c, k, at);
    } else {
      DoubledIsLonger(s, e);
      UnescapedKeepsLength(Doubled(s, e), e);
    }
  }

  lemma UniformIsLost(s: string, c: char, k: nat, at: nat)
    requires k >= 2 && at + k <= |s| && FindFirst(s, Rep(c, k)) == Some(at)
    ensures |Unescaped(Doubled(s, Rep(c, k)), Rep(c, k))| > |s|
  {
    hide Replace, Unescaped, HasPrefix, Rep;
    var e := Rep(c, k);
    RepLength(c, k);
    var b := s[at + k..];
    var y := Doubled(b, e);
    ReplaceStep(s, e, e + e);
    Assoc(s[..at], e + e, y);
    TwoMore(c, 0, k, y);
    RepNothing(c, e + e + y);
    var t := Rep(c, 2 * k) + y;
    forall i | 0 <= i < at
      ensures !HasPrefix((s[..at] + t)[i..], e)
    {
      NotBefore(s, c, k, at, y, i);
    }
    UnescapedSkips(s[..at], t, e);
    FirstHit(c, k, y);
    UnescapedLeavesHalf(c, k - 1, k, b);
  }

  lemma RepNothing(c: char, y: string)
    ensures Rep(c, 0) + y == y
  {
  }

  /** The first of two escape strings takes one character of the second with it. */
  lemma FirstHit(c: char, k: nat, y: string)
    requires k >= 2
    ensures Unescaped(Rep(c, 2 * k) + y, Rep(c, k)) == Rep(c, k) + Unescaped(Rep(c, k - 1) + y, Rep(c, k))
  {
    hide Unescaped;
    var e, t := Rep(c, k), Rep(c, 2 * k) + y;
    assert t[..k] == e;
    UnescapedHit(t, e);
    assert t[1..][..k] == e;
    assert t[1..][k..] == Rep(c, k - 1) + y;
  }

  /** In front of its first occurrence the run is not continued. */
  lemma NotBefore(s: string, c: char, k: nat, at: nat, y: string, i: nat)
    requires k >= 2 && i < at <= |s| && FindFirst(s, Rep(c, k)) == Some(at)
    ensures !HasPrefix((s[..at] + (Rep(c, 2 * k) + y))[i..], Rep(c, k))
  {
    var e := Rep(c, k);
    var u := (s[..at] + (Rep(c, 2 * k) + y))[i..];
    assert !HasPrefix(s[i..], e);
    if HasPrefix(u, e) {
      OccurrenceMoves(s, c, k, at, y, i);
    }
  }

  lemma OccurrenceMoves(s: string, c: char, k: nat, at: nat, y: string, i: nat)
    requires i < at <= |s| && HasPrefix(s[at..], Rep(c, k))
    requires HasPrefix((s[..at] + (Rep(c, 2 * k) + y))[i..], Rep(c, k))
    ensures HasPrefix(s[i..], Rep(c, k))
  {
    var e := Rep(c, k);
    var u := (s[..at] + (Rep(c, 2 * k) + y))[i..];
    forall m | 0 <= m < k
      ensures s[i..][m] == c
    {
      if i + m < at {
        assert u[..k][m] == s[i + m];
      } else {
        assert s[at..][..k][i + m - at] == c;
      }
    }
    assert s[i..][..k] == e;
  }

  /** With an escape string of one character, escaping can be undone. */
  lemma {:induction false} EscapeRoundTrip(s: string, c: char)
    ensures Unescaped(Doubled(s, [c]), [c]) == s
    decreases |s|
  {
    hide Unescaped, Replace, HasPrefix;
    if s == "" {
      EmptyRoundTrip(c);
    } else {
      var rest := Doubled(s[1..], [c]);
      EscapeRoundTrip(s[1..], c);
      DoubledFirst(s, c);
      if s[0] == c {
        UnescapePair(c, rest);
      } else {
        NotPrefixed(s[0], rest, c);
        UnescapedCons(s[0], rest, [c]);
      }
      assert s == [s[0]] + s[1..];
    }
  }

  lemma EmptyRoundTrip(c: char)
    ensures Unescaped(Doubled("", [c]), [c]) == ""
  {
  }

  lemma DoubledFirst(s: string, c: char)
    requires s != ""
    ensures Doubled(s, [c]) == (if s[0] == c then [c, c] else [s[0]]) + Doubled(s[1..], [c])
  {
    assert [c] + [c] == [c, c];
    assert s[..1] == [s[0]];
    if s[0] == c {
      ReplaceHit(s, [c], [c] + [c]);
    } else {
      ReplaceCons(s, [c], [c] + [c]);
    }
  }

  lemma NotPrefixed(x: char, rest: string, c: char)
    requires x != c
    ensures !HasPrefix([x] + rest, [c])
  {
    assert ([x] + rest)[0] == x;
  }

  /** A doubled character gives back one. */
  lemma UnescapePair(c: char, rest: string)
    ensures Unescaped([c, c] + rest, [c]) == [c] + Unescaped(rest, [c])
  {
    hide Unescaped;
    var t := [c, c] + rest;
    assert t[..1] == [c];
    UnescapedHit(t, [c]);
    assert t[1..] == [c] + rest && t[1..][..1] == [c] && t[1..][1..] == rest;
  }

  lemma NothingToUndo(s: string, e: string)
    requires e != "" && !Occurs(e, s)
    ensures Unescaped(Doubled(s, e), e) == s
  {
    ReplaceStep(s, e, e + e);
  }

  /** Exactly when `unescaped` undoes `escaped`, with an empty map: when the escape string is a
      single character, or there was nothing to escape. */
  lemma UnescapeUndoesExactly(s: string, e: string)
    requires e != ""
    ensures Unescaped(Escaped(s, e, []), e) == s <==> |e| == 1 || !Occurs(e, s)
  {
    if |e| == 1 {
      assert e == [e[0]];
      EscapeRoundTrip(s, e[0]);
    } else if Occurs(e, s) {
      LongEscapeIsLost(s, e);
    } else {
      NothingToUndo(s, e);
    }
  }

  // ---------------------------------------------------------------- joining

  /** Strings with a separator between them. */
  function Joined(c: seq<string>, sep: string): string
    decreases |c|
  {
    if c == [] then "" else if |c| == 1 then c[0] else c[0] + sep + Joined(c[1..], sep)
  }

  function Terminated(c: seq<string>, sep: string): string
    decreases |c|
  {
    if c == [] then "" else c[0] + sep + Terminated(c[1..], sep)
  }

  lemma {:induction false} TerminatedIsJoined(c: seq<string>, sep: string)
    requires c != []
    ensures Terminated(c, sep) == Joined(c, sep) + sep
    decreases |c|
  {
    if |c| == 1 {
      assert c[0] + sep + "" == c[0] + sep;
    } else {
      TerminatedIsJoined(c[1..], sep);
      assert c[0] + sep + (Joined(c[1..], sep) + sep) == (c[0] + sep + Joined(c[1..], sep)) + sep;
    }
  }

  lemma {:induction false} TerminatedSnoc(c: seq<string>, x: string, sep: string)
    ensures Terminated(c + [x], sep) == Terminated(c, sep) + (x + sep)
    decreases |c|
  {
    if c == [] {
      assert x + sep + "" == x + sep;
      assert c + [x] == [x];
    } else {
      TerminatedSnoc(c[1..], x, sep);
      assert (c + [x])[1..] == c[1..] + [x];
      assert c[0] + sep + (Terminated(c[1..], sep) + (x + sep)) == (c[0] + sep + Terminated(c[1..], sep)) + (x + sep);
    }
  }

  /** Every string with a prefix in front of it. */
  function Prefixed(c: seq<string>, pre: string): (r: seq<string>)
    ensures |r| == |c| && forall i :: 0 <= i < |c| ==> r[i] == pre + c[i]
  {
    seq(|c|, i requires 0 <= i < |c| => pre + c[i])
  }

  /** `join`: appends a separator after every string and takes the last one off again. An empty
      result needs no trimming, even when there were empty strings. */
  method Join(c: seq<string>, sep: string, pre: string) returns (ret: string)
    ensures ret == Joined(Prefixed(c, pre), sep)
  {
    ghost var all := Prefixed(c, pre);
    ret := "";
    var i := 0;
    while i < |c|
      invariant 0 <= i <= |c|
      invariant ret == Terminated(all[..i], sep)
    {
      TerminatedSnoc(all[..i], all[i], sep);
      assert all[..i + 1] == all[..i] + [all[i]];
      assert ret + pre + c[i] + sep == ret + (pre + c[i] + sep);
      ret := ret + pre + c[i] + sep;
      i := i + 1;
    }
    assert all[..|c|] == all;
    if c != [] {
      TerminatedIsJoined(all, sep);
    }
    if ret != "" {
      ret := ret[..|ret| - |sep|];
    }
  }

  lemma NoPrefix(c: seq<string>)
    ensures Prefixed(c, "") == c
  {
    assert forall i :: 0 <= i < |c| ==> "" + c[i] == c[i];
  }

  function Quoted(v: string): string {
    "\"" + v + "\""
  }
}
