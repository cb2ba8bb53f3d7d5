/**
 * Text helpers with the semantics of the Rust standard-library calls the
 * converter uses: `str::contains`, `str::lines`, `[String]::join`,
 * `str::split` and the decimal `FromStr`/`Display` of the unsigned and
 * signed integer types.
 */
module Strings {
  import opened Wrappers

  // ---------------------------------------------------------------------
  // Substring search
  // ---------------------------------------------------------------------

  /** `pat` occurs in `s` starting at index `i`. */
  predicate IsAt(s: string, pat: string, i: int) {
    0 <= i && i + |pat| <= |s| && s[i..i + |pat|] == pat
  }

  /** First occurrence of `pat` at an index `>= from`. */
  function IndexFrom(s: string, pat: string, from: nat): (r: Option<nat>)
    decreases |s| - from
    ensures r.Some? ==> from <= r.value && IsAt(s, pat, r.value)
    ensures r.Some? ==> forall j :: from <= j < r.value ==> !IsAt(s, pat, j)
    ensures r.None? ==> forall j :: from <= j ==> !IsAt(s, pat, j)
  {
    if from + |pat| > |s| then None
    else if s[from..from + |pat|] == pat then Some(from)
    else IndexFrom(s, pat, from + 1)
  }

  /** First occurrence of `pat` in `s` (`str::find`). */
  function IndexOf(s: string, pat: string): (r: Option<nat>)
    ensures r.Some? ==> IsAt(s, pat, r.value) && forall j :: 0 <= j < r.value ==> !IsAt(s, pat, j)
    ensures r.None? ==> forall j :: !IsAt(s, pat, j)
  {
    IndexFrom(s, pat, 0)
  }

  /** Last occurrence of `pat` starting strictly below index `k`. */
  function LastIndexBelow(s: string, pat: string, k: nat): (r: Option<nat>)
    decreases k
    ensures r.Some? ==> r.value < k && IsAt(s, pat, r.value)
    ensures r.Some? ==> forall j :: r.value < j < k ==> !IsAt(s, pat, j)
    ensures r.None? ==> forall j :: j < k ==> !IsAt(s, pat, j)
  {
    if k == 0 then None
    else if IsAt(s, pat, k - 1) then Some(k - 1)
    else LastIndexBelow(s, pat, k - 1)
  }

  /** Last occurrence of `pat` in `s` (`str::rfind`). */
  function LastIndexOf(s: string, pat: string): (r: Option<nat>)
    ensures r.Some? ==> IsAt(s, pat, r.value) && forall j :: r.value < j ==> !IsAt(s, pat, j)
    ensures r.None? ==> forall j :: !IsAt(s, pat, j)
  {
    LastIndexBelow(s, pat, |s| + 1)
  }

  /** First index of the character `c` (`str::find` with a `char` pattern). */
  function IndexOfChar(s: string, c: char): (r: Option<nat>)
    ensures r.Some? ==> r.value < |s| && s[r.value] == c && c !in s[..r.value]
    ensures r.Some? ==> forall j :: 0 <= j < r.value ==> s[j] != c
    ensures r.None? ==> c !in s
  {
    if |s| == 0 then None
    else if s[0] == c then Some(0)
    else match IndexOfChar(s[1..], c)
      case None => None
      case Some(i) =>
        assert s[..i + 1] == [s[0]] + s[1..][..i];
        Some(i + 1)
  }

  /** `str::contains` with a string pattern. */
  predicate Contains(s: string, pat: string)
  {
    IndexOf(s, pat).Some?
  }

  lemma ContainsIff(s: string, pat: string)
    ensures Contains(s, pat) <==> exists j :: IsAt(s, pat, j)
  {
    if Contains(s, pat) {
      assert IsAt(s, pat, IndexOf(s, pat).value);
    }
  }

  // ---------------------------------------------------------------------
  // Joining and splitting
  // ---------------------------------------------------------------------

  /** `[String]::join(sep)`: the parts with `sep` between neighbours. */
  function Join(sep: string, parts: seq<string>): (r: string)
    ensures |parts| == 0 ==> r == ""
    ensures |sep| > 0 ==> (r == "" <==> |parts| == 0 || (|parts| == 1 && parts[0] == ""))
  {
    if |parts| == 0 then ""
    else if |parts| == 1 then parts[0]
    else parts[0] + sep + Join(sep, parts[1..])
  }

  lemma {:induction false} JoinSnoc(sep: string, parts: seq<string>, last: string)
    ensures Join(sep, parts + [last]) == if |parts| == 0 then last else Join(sep, parts) + sep + last
  {
    if |parts| == 0 {
      assert parts + [last] == [last];
    } else if |parts| == 1 {
      assert (parts + [last])[1..] == [last];
    } else {
      assert (parts + [last])[1..] == parts[1..] + [last];
      JoinSnoc(sep, parts[1..], last);
    }
  }

  /** `str::split(c)`: the pieces between occurrences of `c`; `""` gives `[""]`. */
  function Split(s: string, c: char): (r: seq<string>)
    decreases |s|
    ensures |r| > 0
    ensures forall i :: 0 <= i < |r| ==> c !in r[i]
  {
    match IndexOfChar(s, c)
    case None => [s]
    case Some(i) => [s[..i]] + Split(s[i + 1..], c)
  }

  /** Splitting a join at a separator that no part contains gives the parts back. */
  lemma {:induction false} SplitJoin(parts: seq<string>, c: char)
    requires |parts| > 0
    requires forall i :: 0 <= i < |parts| ==> c !in parts[i]
    ensures Split(Join([c], parts), c) == parts
  {
    if |parts| == 1 {
      var s := parts[0];
      assert IndexOfChar(s, c).None?;
    } else {
      var s := Join([c], parts);
      var rest := Join([c], parts[1..]);
      assert s == parts[0] + [c] + rest;
      assert s[|parts[0]|] == c;
      assert s[..|parts[0]|] == parts[0];
      IndexOfCharAt(s, parts[0], c);
      assert s[|parts[0]| + 1..] == rest;
      SplitJoin(parts[1..], c);
    }
  }

  // ---------------------------------------------------------------------
  // Lines (`str::lines`)
  // ---------------------------------------------------------------------

  /** Drops one trailing carriage return: the `\r` of a `\r\n` line ending. */
  function StripCr(line: string): string
  {
    if |line| > 0 && line[|line| - 1] == '\r' then line[..|line| - 1] else line
  }

  /**
   * `str::lines`: pieces ending at `\n` (with a `\r` right before it removed);
   * the final line ending is optional, so a trailing `\n` adds no empty line.
   * A `\r` on the last piece, which has no `\n` after it, is kept.
   */
  function Lines(s: string): (r: seq<string>)
    decreases |s|
    ensures forall i :: 0 <= i < |r| ==> '\n' !in r[i]
  {
    if |s| == 0 then []
    else match IndexOfChar(s, '\n')
      case None => [s]
      case Some(i) =>
        [StripCr(s[..i])] + Lines(s[i + 1..])
  }

  /** A first line without line-ending characters followed by `\n` and more text is split off whole. */
  lemma LinesCons(head: string, rest: string)
    requires '\n' !in head && '\r' !in head
    requires |rest| > 0
    ensures Lines(head + "\n" + rest) == [head] + Lines(rest)
  {
    var s := head + "\n" + rest;
    IndexOfCharAt(s, head, '\n');
    assert s[..|head|] == head;
    assert s[|head| + 1..] == rest;
    assert |head| == 0 || head[|head| - 1] != '\r' by {
      if |head| > 0 { assert head[|head| - 1] in head; }
    }
    assert StripCr(head) == head;
  }

  /** The first `c` in `prefix + [c] + ...` is right after `prefix` when `prefix` has none. */
  lemma IndexOfCharAt(s: string, prefix: string, c: char)
    requires c !in prefix
    requires |prefix| < |s| && s[..|prefix|] == prefix && s[|prefix|] == c
    ensures IndexOfChar(s, c) == Some(|prefix|)
  {
    var r := IndexOfChar(s, c);
    assert r.Some? by { assert s[|prefix|] in s; }
    assert forall j :: 0 <= j < |prefix| ==> s[j] == prefix[j] && prefix[j] in prefix;
  }

  /** Joining lines that hold no line-ending characters with `\n` and splitting the text again gives them back. */
  lemma {:induction false} LinesOfJoin(ls: seq<string>)
    requires forall i :: 0 <= i < |ls| ==> '\n' !in ls[i] && '\r' !in ls[i]
    requires |ls| == 0 || ls[|ls| - 1] != ""
    ensures Lines(Join("\n", ls)) == ls
  {
    if |ls| == 0 {
    } else if |ls| == 1 {
      assert IndexOfChar(ls[0], '\n').None?;
    } else {
      var rest := Join("\n", ls[1..]);
      assert rest != "" by {
        assert ls[1..][|ls[1..]| - 1] != "";
      }
      LinesCons(ls[0], rest);
      LinesOfJoin(ls[1..]);
    }
  }

  /** Text without carriage returns and without a final line ending survives `lines` followed by a `\n` join. */
  lemma {:induction false} JoinOfLines(s: string)
    requires '\r' !in s
    requires |s| == 0 || s[|s| - 1] != '\n'
    ensures Join("\n", Lines(s)) == s
    decreases |s|
  {
    if |s| > 0 {
      match IndexOfChar(s, '\n')
      case None =>
      case Some(i) =>
        var head, tail := s[..i], s[i + 1..];
        assert s == head + "\n" + tail;
        assert '\r' !in head && '\r' !in tail;
        assert |head| == 0 || head[|head| - 1] != '\r' by {
          if |head| > 0 { assert head[|head| - 1] in head; }
        }
        assert StripCr(head) == head;
        assert |tail| > 0 && tail[|tail| - 1] == s[|s| - 1];
        JoinOfLines(tail);
        var rest := Lines(tail);
        assert Lines(s) == [head] + rest;
        assert |rest| > 0;
        assert ([head] + rest)[1..] == rest;
    }
  }

  // ---------------------------------------------------------------------
  // Decimal integers (`FromStr` and `Display` of u32, u64, i32)
  // ---------------------------------------------------------------------

  predicate IsDigit(c: char) {
    '0' <= c <= '9'
  }

  predicate AllDigits(s: string) {
    forall i :: 0 <= i < |s| ==> IsDigit(s[i])
  }

  function DigitValue(c: char): nat
    requires IsDigit(c)
  {
    (c as int) - ('0' as int)
  }

  function DigitChar(d: nat): (c: char)
    requires d < 10
    ensures IsDigit(c) && DigitValue(c) == d
  {
    (('0' as int) + d) as char
  }

  /** The value of a string of decimal digits, most significant first. */
  function DigitsValue(s: string): nat
    requires AllDigits(s)
  {
    if |s| == 0 then 0 else DigitsValue(s[..|s| - 1]) * 10 + DigitValue(s[|s| - 1])
  }

  /** `Display` of an unsigned integer: shortest decimal form, no sign. */
  function ShowNat(n: nat): (r: string)
    ensures |r| > 0 && AllDigits(r)
    ensures |r| > 1 ==> r[0] != '0'
  {
    if n < 10 then [DigitChar(n)] else ShowNat(n / 10) + [DigitChar(n % 10)]
  }

  lemma {:induction false} ShowNatValue(n: nat)
    ensures DigitsValue(ShowNat(n)) == n
  {
    if n >= 10 {
      var s := ShowNat(n);
      assert s[..|s| - 1] == ShowNat(n / 10);
      ShowNatValue(n / 10);
    }
  }

  /** One or more decimal digits. */
  function ParseDigits(s: string): (r: Option<nat>)
    ensures r.Some? <==> |s| > 0 && AllDigits(s)
  {
    if |s| > 0 && AllDigits(s) then Some(DigitsValue(s)) else None
  }

  /** `FromStr` of an unsigned type whose values are below `limit`: an optional `+`, then digits. */
  function ParseUnsigned(s: string, limit: nat): (r: Option<nat>)
    ensures r.Some? ==> r.value < limit
    ensures |s| == 0 || s[0] == '-' ==> r.None?
  {
    var digits := if |s| > 0 && s[0] == '+' then s[1..] else s;
    match ParseDigits(digits)
    case Some(v) => if v < limit then Some(v) else None
    case None => None
  }

  /** `FromStr` of a signed type with values in `[-limit, limit - 1]`: an optional `+` or `-`, then digits. */
  function ParseSigned(s: string, limit: nat): (r: Option<int>)
    requires limit > 0
    ensures r.Some? ==> -(limit as int) <= r.value < limit
  {
    if |s| > 0 && s[0] == '-' then
      match ParseDigits(s[1..])
      case Some(v) => if v <= limit then Some(0 - v) else None
      case None => None
    else
      match ParseUnsigned(s, limit)
      case Some(v) => Some(v as int)
      case None => None
  }

  const U32_LIMIT: nat := 0x1_0000_0000
  const U64_LIMIT: nat := 0x1_0000_0000_0000_0000

  function ParseU32(s: string): Option<nat> { ParseUnsigned(s, U32_LIMIT) }
  function ParseU64(s: string): Option<nat> { ParseUnsigned(s, U64_LIMIT) }
  function ParseI32(s: string): Option<int> { ParseSigned(s, 0x8000_0000) }

  /** `Display` then `FromStr` is the identity on every value of an unsigned type. */
  lemma ParseShowUnsigned(n: nat, limit: nat)
    requires n < limit
    ensures ParseUnsigned(ShowNat(n), limit) == Some(n)
  {
    ShowNatValue(n);
  }
}
