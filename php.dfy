/**
  The handful of PHP library behaviours the Group module relies on, stated
  over Dafny strings (sequences of characters). Character classes are the
  ASCII ones; PHP works on bytes, which matters only for the no-break spaces
  used as trim characters (see the README).
*/
module Php {

  datatype Option<T> = None | Some(value: T)

  /** The characters PCRE's `\s` matches. */
  const Spaces: set<char> := {' ', '\t', '\n', '\U{B}', '\U{C}', '\r'}

  /** The characters trim() strips when it is given no character list. */
  const DefaultTrim: set<char> := {' ', '\t', '\n', '\r', '\0', '\U{B}'}

  /** trim() from the left only. */
  function TrimLeft<T(==)>(s: seq<T>, cs: set<T>): (r: seq<T>)
    ensures |r| <= |s| && r == s[|s| - |r|..]
    ensures r == [] || r[0] !in cs
    decreases |s|
  {
    if |s| > 0 && s[0] in cs then
      var r := TrimLeft(s[1..], cs);
      assert s[1..][|s| - 1 - |r|..] == s[|s| - |r|..];
      r
    else s
  }

  /** What TrimLeft removes is made of members of cs only. */
  lemma {:induction false} TrimLeftRemoves<T>(s: seq<T>, cs: set<T>)
    ensures forall i :: 0 <= i < |s| - |TrimLeft(s, cs)| ==> s[i] in cs
    decreases |s|
  {
    if |s| > 0 && s[0] in cs {
      TrimLeftRemoves(s[1..], cs);
      forall i | 1 <= i < |s| - |TrimLeft(s, cs)| ensures s[i] in cs {
        assert s[i] == s[1..][i - 1];
      }
    }
  }

  /** trim() from the right only. */
  function TrimRight<T(==)>(s: seq<T>, cs: set<T>): (r: seq<T>)
    ensures |r| <= |s| && r == s[..|r|]
    ensures r == [] || r[|r| - 1] !in cs
    decreases |s|
  {
    if |s| > 0 && s[|s| - 1] in cs then
      var r := TrimRight(s[..|s| - 1], cs);
      assert s[..|s| - 1][..|r|] == s[..|r|];
      r
    else s
  }

  /** What TrimRight removes is made of members of cs only. */
  lemma {:induction false} TrimRightRemoves<T>(s: seq<T>, cs: set<T>)
    ensures forall i :: |TrimRight(s, cs)| <= i < |s| ==> s[i] in cs
    decreases |s|
  {
    if |s| > 0 && s[|s| - 1] in cs {
      TrimRightRemoves(s[..|s| - 1], cs);
      forall i | |TrimRight(s, cs)| <= i < |s| - 1 ensures s[i] in cs {
        assert s[i] == s[..|s| - 1][i];
      }
    }
  }

  /** trim($s, $characters): the longest middle part of s whose two ends are not in cs. */
  function Trim<T(==)>(s: seq<T>, cs: set<T>): (r: seq<T>)
    ensures |r| <= |s|
    ensures r == [] || (r[0] !in cs && r[|r| - 1] !in cs)
  {
    var left := TrimLeft(s, cs);
    var r := TrimRight(left, cs);
    assert r != [] ==> r[0] == left[0];
    r
  }

  /** Trim keeps a middle part of s, starting where TrimLeft stops. */
  lemma TrimSlice<T>(s: seq<T>, cs: set<T>) returns (k: nat)
    ensures k == |s| - |TrimLeft(s, cs)|
    ensures k + |Trim(s, cs)| <= |s| && Trim(s, cs) == s[k..k + |Trim(s, cs)|]
  {
    var left := TrimLeft(s, cs);
    k := |s| - |left|;
    var r := TrimRight(left, cs);
    assert Trim(s, cs) == r;
    assert left == s[k..] && r == left[..|r|];
    assert s[k..][..|r|] == s[k..k + |r|];
  }

  /** What Trim removes, before and after that middle part, is made of members of cs only. */
  lemma TrimRemoves<T>(s: seq<T>, cs: set<T>)
    ensures var k := |s| - |TrimLeft(s, cs)|;
      var r := Trim(s, cs);
      && (forall i :: 0 <= i < k ==> s[i] in cs)
      && (forall i :: k + |r| <= i < |s| ==> s[i] in cs)
  {
    var left := TrimLeft(s, cs);
    var r := Trim(s, cs);
    var k := |s| - |left|;
    TrimLeftRemoves(s, cs);
    TrimRightRemoves(left, cs);
    assert left == s[k..];
    assert r == TrimRight(left, cs);
    forall i | k + |r| <= i < |s| ensures s[i] in cs {
      assert s[i] == left[i - k];
    }
  }

  /** Trimming a trimmed string changes nothing. */
  lemma TrimIdempotent<T>(s: seq<T>, cs: set<T>)
    ensures Trim(Trim(s, cs), cs) == Trim(s, cs)
  {
    var r := Trim(s, cs);
    assert TrimLeft(r, cs) == r;
    assert TrimRight(r, cs) == r;
  }

  /** Every character of a trimmed string comes from the original. */
  lemma TrimChars<T>(s: seq<T>, cs: set<T>, c: T)
    requires c in Trim(s, cs)
    ensures c in s
  {
    var r := Trim(s, cs);
    var k := TrimSlice(s, cs);
    var j :| 0 <= j < |r| && r[j] == c;
    assert s[k + j] == c;
  }

  /** No character of cs, other than at its two ends, is removed by Trim. */
  lemma TrimKeepsInner<T>(s: seq<T>, cs: set<T>)
    requires s == [] || (s[0] !in cs && s[|s| - 1] !in cs)
    ensures Trim(s, cs) == s
  {
  }

  /** array_map(fn ($v) => trim($v, cs), parts). */
  function TrimEach<T(==)>(parts: seq<seq<T>>, cs: set<T>): seq<seq<T>>
  {
    seq(|parts|, k requires 0 <= k < |parts| => Trim(parts[k], cs))
  }

  /** The members of TrimEach are the trims of the parts, and none has an end in cs. */
  lemma TrimEachOf(parts: seq<string>, cs: set<char>, v: string)
    ensures v in TrimEach(parts, cs) <==> exists k :: 0 <= k < |parts| && v == Trim(parts[k], cs)
    ensures v in TrimEach(parts, cs) && v != [] ==> v[0] !in cs && v[|v| - 1] !in cs
  {
    var r := TrimEach(parts, cs);
    if v in r {
      var j :| 0 <= j < |r| && r[j] == v;
      assert v == Trim(parts[j], cs);
    }
    if exists k :: 0 <= k < |parts| && v == Trim(parts[k], cs) {
      var k :| 0 <= k < |parts| && v == Trim(parts[k], cs);
      assert r[k] == v;
    }
  }

  /** The lists of xs joined in order. */
  function Flatten<T>(xs: seq<seq<T>>): seq<T>
  {
    if |xs| == 0 then [] else Flatten(xs[..|xs| - 1]) + xs[|xs| - 1]
  }

  /** Flattening the first n + 1 lists appends the list at n. */
  lemma FlattenStep<T>(xs: seq<seq<T>>, n: nat)
    requires n < |xs|
    ensures Flatten(xs[..n + 1]) == Flatten(xs[..n]) + xs[n]
  {
    assert xs[..n + 1][..n] == xs[..n];
  }

  /** An element of the joined lists is an element of one of them. */
  lemma {:induction false} FlattenMember<T>(xs: seq<seq<T>>, v: T)
    ensures v in Flatten(xs) <==> exists i :: 0 <= i < |xs| && v in xs[i]
  {
    if |xs| > 0 {
      var init := xs[..|xs| - 1];
      FlattenMember(init, v);
      if exists i :: 0 <= i < |xs| && v in xs[i] {
        var i :| 0 <= i < |xs| && v in xs[i];
        if i < |xs| - 1 {
          assert v in init[i];
        }
      }
      if exists i :: 0 <= i < |init| && v in init[i] {
        var i :| 0 <= i < |init| && v in init[i];
        assert v in xs[i];
      }
    }
  }

  /** True when no character of s is in cs. */
  predicate NoneOf<T(==)>(s: seq<T>, cs: set<T>)
  {
    forall i :: 0 <= i < |s| ==> s[i] !in cs
  }

  /** A sequence with none of a list's elements has none of a smaller list's. */
  lemma NoneOfSubset<T>(s: seq<T>, a: set<T>, b: set<T>)
    requires NoneOf(s, b) && a <= b
    ensures NoneOf(s, a)
  {
  }

  /** A sequence with none of two lists' elements has none of their union. */
  lemma NoneOfUnion<T>(s: seq<T>, a: set<T>, b: set<T>)
    requires NoneOf(s, a) && NoneOf(s, b)
    ensures NoneOf(s, a + b)
  {
  }

  /** A trim removes at least the final element when that element is in the list. */
  lemma TrimDropsLast<T>(s: seq<T>, cs: set<T>)
    requires |s| > 0 && s[|s| - 1] in cs
    ensures |Trim(s, cs)| < |s|
  {
  }

  /** preg_replace('/[...]/', c, s): every character of the class cs becomes c. */
  function ReplaceChars<T(==)>(s: seq<T>, cs: set<T>, c: T): (r: seq<T>)
    ensures |r| == |s|
    ensures forall i :: 0 <= i < |s| ==> r[i] == (if s[i] in cs then c else s[i])
  {
    seq(|s|, i requires 0 <= i < |s| => if s[i] in cs then c else s[i])
  }

  /** The discipline preg_replace('/[ws]+/', sp, s) establishes: sp is the only
      member of ws left, and no two members of ws touch. */
  ghost predicate SingleRuns<T>(s: seq<T>, ws: set<T>, sp: T)
  {
    && (forall i :: 0 <= i < |s| && s[i] in ws ==> s[i] == sp)
    && (forall i, j :: 0 <= i < j < |s| && j == i + 1 ==> s[i] !in ws || s[j] !in ws)
  }

  /** preg_replace('/[ws]+/', sp, s): every maximal run of members of ws becomes one sp. */
  function CollapseRuns<T(==)>(s: seq<T>, ws: set<T>, sp: T): (r: seq<T>)
    requires sp in ws
    ensures SingleRuns(r, ws, sp)
    ensures |r| <= |s|
    ensures (|r| > 0 && r[0] in ws) <==> (|s| > 0 && s[0] in ws)
    decreases |s|
  {
    if |s| == 0 then []
    else if s[0] in ws then
      var rest := TrimLeft(s[1..], ws);
      var tail := CollapseRuns(rest, ws, sp);
      SingleRunsCons(sp, tail, ws, sp);
      [sp] + tail
    else
      var tail := CollapseRuns(s[1..], ws, sp);
      SingleRunsCons(s[0], tail, ws, sp);
      [s[0]] + tail
  }

  /** One more element in front keeps the runs single when it is not a second member of ws in a row. */
  lemma SingleRunsCons<T>(x: T, t: seq<T>, ws: set<T>, sp: T)
    requires SingleRuns(t, ws, sp)
    requires x in ws ==> x == sp && (t == [] || t[0] !in ws)
    ensures SingleRuns([x] + t, ws, sp)
  {
    var r := [x] + t;
    forall i | 0 <= i < |r| && r[i] in ws ensures r[i] == sp {
      if i > 0 {
        assert r[i] == t[i - 1];
      }
    }
    forall i, j | 0 <= i < j < |r| && j == i + 1 ensures r[i] !in ws || r[j] !in ws {
      assert r[j] == t[j - 1];
      if i > 0 {
        assert r[i] == t[i - 1];
      }
    }
  }

  /** CollapseRuns brings in no element but sp. */
  lemma {:induction false} CollapseRunsFrom<T>(s: seq<T>, ws: set<T>, sp: T)
    requires sp in ws
    ensures forall c :: c in CollapseRuns(s, ws, sp) ==> c in s || c == sp
    decreases |s|
  {
    if |s| > 0 {
      var r := CollapseRuns(s, ws, sp);
      var rest := if s[0] in ws then TrimLeft(s[1..], ws) else s[1..];
      var d := |s| - 1 - |rest|;
      assert rest == s[1 + d..];
      CollapseRunsFrom(rest, ws, sp);
      assert r == [if s[0] in ws then sp else s[0]] + CollapseRuns(rest, ws, sp);
      forall c | c in r ensures c in s || c == sp {
        if c != r[0] && c != sp {
          assert c in CollapseRuns(rest, ws, sp);
          assert c in rest;
          var j :| 0 <= j < |rest| && rest[j] == c;
          assert s[1 + d + j] == c;
        }
      }
    }
  }

  /** CollapseRuns keeps every element outside ws. */
  lemma {:induction false} CollapseRunsKeeps<T>(s: seq<T>, ws: set<T>, sp: T)
    requires sp in ws
    ensures forall i :: 0 <= i < |s| && s[i] !in ws ==> s[i] in CollapseRuns(s, ws, sp)
    decreases |s|
  {
    if |s| > 0 {
      var r := CollapseRuns(s, ws, sp);
      var rest := if s[0] in ws then TrimLeft(s[1..], ws) else s[1..];
      var d := |s| - 1 - |rest|;
      assert rest == s[1 + d..];
      if s[0] in ws {
        TrimLeftRemoves(s[1..], ws);
      }
      CollapseRunsKeeps(rest, ws, sp);
      var tail := CollapseRuns(rest, ws, sp);
      assert r == [if s[0] in ws then sp else s[0]] + tail;
      forall i | 0 <= i < |s| && s[i] !in ws ensures s[i] in r {
        if i > 0 {
          assert s[1..][i - 1] == s[i];
          assert i - 1 >= d;
          assert rest[i - 1 - d] == s[i];
          assert s[i] in tail;
        }
      }
    }
  }

  /** A sequence whose runs are already single is left alone by CollapseRuns. */
  lemma {:induction false} CollapseSingleRuns<T>(s: seq<T>, ws: set<T>, sp: T)
    requires sp in ws && SingleRuns(s, ws, sp)
    ensures CollapseRuns(s, ws, sp) == s
    decreases |s|
  {
    if |s| > 0 {
      SingleRunsSlice(s, ws, sp, 1, |s|);
      assert s[1..|s|] == s[1..];
      CollapseSingleRuns(s[1..], ws, sp);
      if s[0] in ws {
        assert s[0] == sp;
        if |s| > 1 {
          assert s[1] !in ws;
          assert s[1..][0] !in ws;
        }
        assert TrimLeft(s[1..], ws) == s[1..];
      }
      assert s == [s[0]] + s[1..];
    }
  }

  /** A middle part of a sequence with single runs has single runs. */
  lemma SingleRunsSlice<T>(s: seq<T>, ws: set<T>, sp: T, i: nat, j: nat)
    requires SingleRuns(s, ws, sp) && i <= j <= |s|
    ensures SingleRuns(s[i..j], ws, sp)
  {
    var m := s[i..j];
    forall a | 0 <= a < |m| && m[a] in ws ensures m[a] == sp {
      assert m[a] == s[i + a];
    }
    forall a, b | 0 <= a < b < |m| && b == a + 1 ensures m[a] !in ws || m[b] !in ws {
      assert m[a] == s[i + a] && m[b] == s[i + b];
    }
  }

  /** Trimming keeps the runs single. */
  lemma TrimSingleRuns<T>(s: seq<T>, ws: set<T>, sp: T, cs: set<T>)
    requires SingleRuns(s, ws, sp)
    ensures SingleRuns(Trim(s, cs), ws, sp)
  {
    var k := TrimSlice(s, cs);
    SingleRunsSlice(s, ws, sp, k, k + |Trim(s, cs)|);
  }

  /** The string form: the only whitespace left is the plain space, never two in a row. */
  ghost predicate SingleSpaced(s: string)
  {
    SingleRuns(s, Spaces, ' ')
  }

  /** preg_replace('/\s+/', ' ', s). */
  function CollapseSpaces(s: string): string
  {
    CollapseRuns(s, Spaces, ' ')
  }

  /** A string of decimal digits only (at least one). */
  predicate IsDigits(s: string)
  {
    |s| > 0 && forall i :: 0 <= i < |s| ==> '0' <= s[i] <= '9'
  }

  /** preg_match('~^\d+$~', s): digits only, where PCRE's `$` also matches just before
      one final newline. */
  predicate IsIdString(s: string)
  {
    IsDigits(s) || (|s| > 1 && s[|s| - 1] == '\n' && IsDigits(s[..|s| - 1]))
  }

  /** The number a string of digits denotes. */
  function DigitsValue(s: string): (n: nat)
    requires IsDigits(s)
    ensures |s| == 1 ==> n == (s[0] as int) - ('0' as int)
  {
    if |s| == 1 then (s[0] as int) - ('0' as int)
    else
      assert IsDigits(s[..|s| - 1]);
      DigitsValue(s[..|s| - 1]) * 10 + ((s[|s| - 1] as int) - ('0' as int))
  }

  /** The number a string that passed IsIdString denotes, without bound. */
  function IdValue(s: string): nat
    requires IsIdString(s)
  {
    if IsDigits(s) then DigitsValue(s) else DigitsValue(s[..|s| - 1])
  }

  /** PHP_INT_MAX on a 64-bit build. */
  const PhpIntMax: nat := 0x7FFF_FFFF_FFFF_FFFF

  /** (int) $s for a string that passed IsIdString: its value, saturated at PHP_INT_MAX. */
  function IntCast(s: string): (n: nat)
    requires IsIdString(s)
    ensures n <= PhpIntMax
    ensures IdValue(s) <= PhpIntMax ==> n == IdValue(s)
    ensures IdValue(s) > PhpIntMax ==> n == PhpIntMax
  {
    if IdValue(s) <= PhpIntMax then IdValue(s) else PhpIntMax
  }

  /** The decimal digits of a natural number, as PHP writes an int: no leading zero. */
  function DecimalDigits(n: nat): (s: string)
    ensures IsDigits(s) && DigitsValue(s) == n
    ensures n > 0 ==> s[0] != '0'
  {
    if n < 10 then [(n + '0' as int) as char]
    else
      var s := DecimalDigits(n / 10) + [(n % 10 + '0' as int) as char];
      assert s[..|s| - 1] == DecimalDigits(n / 10);
      s
  }

  /** (string) $n for an int: its decimal digits, after a minus sign when it is negative. */
  function IntString(n: int): (s: string)
    ensures n >= 0 <==> IsDigits(s)
    ensures n >= 0 ==> DigitsValue(s) == n
    ensures n < 0 ==> |s| > 1 && s[0] == '-' && IsDigits(s[1..]) && DigitsValue(s[1..]) == -n
  {
    if n < 0 then
      var digits := DecimalDigits(-n);
      assert ("-" + digits)[1..] == digits;
      assert ("-" + digits)[0] == '-';
      "-" + digits
    else DecimalDigits(n)
  }

  /** The string of an int has no character trim() removes by default at either end, so trim keeps it. */
  lemma IntStringTrimmed(n: int)
    ensures Trim(IntString(n), DefaultTrim) == IntString(n)
  {
    var s := IntString(n);
    assert n < 0 ==> s[1..][|s[1..]| - 1] == s[|s| - 1];
    TrimKeepsInner(s, DefaultTrim);
  }

  /** PHP's notion of a falsy string: "" and "0". */
  predicate IsFalsy(s: string)
  {
    s == "" || s == "0"
  }

  /** strtolower() on ASCII letters. */
  function Lower(s: string): (r: string)
    ensures |r| == |s|
    ensures forall i :: 0 <= i < |s| ==>
      r[i] == (if 'A' <= s[i] <= 'Z' then ((s[i] as int) + 32) as char else s[i])
  {
    seq(|s|, i requires 0 <= i < |s| =>
      if 'A' <= s[i] <= 'Z' then ((s[i] as int) + 32) as char else s[i])
  }

  /** Whether sep occurs in s at position i. */
  predicate OccursAt<T(==)>(s: seq<T>, sep: seq<T>, i: nat)
  {
    i + |sep| <= |s| && s[i..i + |sep|] == sep
  }

  /** strpos($s, $sep): the first position where sep occurs in s. */
  function IndexOf<T(==)>(s: seq<T>, sep: seq<T>): (r: Option<nat>)
    requires |sep| > 0
    ensures r.Some? ==> OccursAt(s, sep, r.value)
    ensures r.Some? ==> forall j :: 0 <= j < r.value ==> !OccursAt(s, sep, j)
    ensures r.None? ==> forall j :: 0 <= j <= |s| ==> !OccursAt(s, sep, j)
  {
    if |s| < |sep| then None
    else if s[..|sep|] == sep then Some(0)
    else
      assert !OccursAt(s, sep, 0) by {
        assert s[0..|sep|] == s[..|sep|];
      }
      match IndexOf(s[1..], sep)
      case None =>
        assert forall j :: 1 <= j <= |s| ==> !OccursAt(s, sep, j) by {
          forall j | 1 <= j <= |s| ensures !OccursAt(s, sep, j) {
            if OccursAt(s, sep, j) {
              assert s[1..][j - 1..j - 1 + |sep|] == s[j..j + |sep|];
              assert OccursAt(s[1..], sep, j - 1);
            }
          }
        }
        None
      case Some(i) =>
        assert forall j :: 1 <= j <= i ==> !OccursAt(s, sep, j) by {
          forall j | 1 <= j <= i ensures !OccursAt(s, sep, j) {
            if OccursAt(s, sep, j) {
              assert s[1..][j - 1..j - 1 + |sep|] == s[j..j + |sep|];
              assert OccursAt(s[1..], sep, j - 1);
            }
          }
        }
        assert s[1..][i..i + |sep|] == s[i + 1..i + 1 + |sep|];
        Some(i + 1)
  }

  /** explode($sep, $s): the pieces of s between the occurrences of sep. */
  function Explode<T(==)>(sep: seq<T>, s: seq<T>): (pieces: seq<seq<T>>)
    requires |sep| > 0
    ensures |pieces| > 0
    decreases |s|
  {
    match IndexOf(s, sep)
    case None => [s]
    case Some(i) => [s[..i]] + Explode(sep, s[i + |sep|..])
  }

  /** No piece Explode returns contains the separator. */
  lemma {:induction false} ExplodePiecesFree<T>(sep: seq<T>, s: seq<T>)
    requires |sep| > 0
    ensures forall k :: 0 <= k < |Explode(sep, s)| ==> IndexOf(Explode(sep, s)[k], sep).None?
    decreases |s|
  {
    match IndexOf(s, sep)
    case None =>
    case Some(i) =>
      var head := s[..i];
      assert IndexOf(head, sep).None? by {
        if IndexOf(head, sep).Some? {
          var j := IndexOf(head, sep).value;
          assert head[j..j + |sep|] == s[j..j + |sep|];
          assert OccursAt(s, sep, j);
        }
      }
      ExplodePiecesFree(sep, s[i + |sep|..]);
      assert Explode(sep, s) == [head] + Explode(sep, s[i + |sep|..]);
  }

  /** implode($sep, $pieces): the inverse of Explode. */
  function Implode<T>(sep: seq<T>, pieces: seq<seq<T>>): seq<T>
  {
    if |pieces| == 0 then []
    else if |pieces| == 1 then pieces[0]
    else pieces[0] + sep + Implode(sep, pieces[1..])
  }

  /** Exploding loses nothing: joining the pieces with the separator gives s back. */
  lemma {:induction false} ImplodeExplode<T>(sep: seq<T>, s: seq<T>)
    requires |sep| > 0
    ensures Implode(sep, Explode(sep, s)) == s
    decreases |s|
  {
    match IndexOf(s, sep)
    case None =>
    case Some(i) =>
      var tail := s[i + |sep|..];
      var rest := Explode(sep, tail);
      var pieces := Explode(sep, s);
      assert Implode(sep, pieces) == s[..i] + sep + Implode(sep, rest) by {
        assert pieces == [s[..i]] + rest;
        assert |pieces| > 1 && pieces[0] == s[..i] && pieces[1..] == rest;
      }
      assert s == s[..i] + sep + tail by {
        assert s[i..i + |sep|] == sep;
        assert s == s[..i] + s[i..i + |sep|] + tail;
      }
      ImplodeExplode(sep, tail);
  }

  /** A byte: PHP strings are sequences of bytes, and text is stored as UTF-8. */
  type byte = x: int | 0 <= x < 256

  /** The UTF-8 encoding of one character. */
  function EncodeChar(c: char): (b: seq<byte>)
    ensures 1 <= |b| <= 4
    ensures (c as int) < 0x80 ==> b == [c as int]
  {
    var n := c as int;
    if n < 0x80 then [n]
    else if n < 0x800 then [0xC0 + n / 64, 0x80 + n % 64]
    else if n < 0x10000 then [0xE0 + n / 4096, 0x80 + (n / 64) % 64, 0x80 + n % 64]
    else [0xF0 + n / 262144, 0x80 + (n / 4096) % 64, 0x80 + (n / 64) % 64, 0x80 + n % 64]
  }

  /** The UTF-8 encoding of a string, the bytes PHP sees. */
  function Utf8(s: string): (b: seq<byte>)
    ensures |b| >= |s|
  {
    if |s| == 0 then [] else EncodeChar(s[0]) + Utf8(s[1..])
  }

  /** The bytes of a character list written in a UTF-8 source file, as trim() reads it:
      a multi-byte character contributes each of its bytes on its own. */
  function BytesOf(cs: set<char>): set<byte>
  {
    set c, i | c in cs && 0 <= i < |EncodeChar(c)| :: EncodeChar(c)[i]
  }

  /** The UTF-8 bytes of "Voilà": the final "à" is C3 A0. */
  lemma VoilaBytes()
    ensures Utf8("Voil\U{E0}") == [0x56, 0x6F, 0x69, 0x6C, 0xC3, 0xA0]
  {
    assert EncodeChar('\U{E0}') == [0xC3, 0xA0];
  }
}
