/** Shared vocabulary of the command-sender model. */
module Common {

  /** A value that may be absent: Python's `None` or a successful `re.match`. */
  datatype Option<T> = None | Some(value: T)

  /** One octet, as held by a Python `bytes` object. */
  type byte = x: int | 0 <= x < 256

  /** `[0-9A-Fa-f]`. */
  predicate IsHexDigit(c: char) {
    ('0' <= c <= '9') || ('a' <= c <= 'f') || ('A' <= c <= 'F')
  }

  function HexDigitValue(c: char): (v: nat)
    requires IsHexDigit(c)
    ensures v < 16
  {
    if '0' <= c <= '9' then c as int - '0' as int
    else if 'a' <= c <= 'f' then c as int - 'a' as int + 10
    else c as int - 'A' as int + 10
  }

  /** `int(digits, 16)`. */
  function HexValue(digits: string): (v: nat)
    requires forall i :: 0 <= i < |digits| ==> IsHexDigit(digits[i])
  {
    if digits == [] then 0
    else 16 * HexValue(digits[..|digits| - 1]) + HexDigitValue(digits[|digits| - 1])
  }

  /** The digit `n` in the given case: `"0123456789abcdef"[n]` or its upper-case twin. */
  function HexDigitChar(n: nat, upper: bool): (c: char)
    requires n < 16
    ensures IsHexDigit(c) && HexDigitValue(c) == n
    ensures n >= 10 ==> (if upper then 'A' <= c <= 'F' else 'a' <= c <= 'f')
  {
    if n < 10 then ('0' as int + n) as char
    else if upper then ('A' as int + n - 10) as char
    else ('a' as int + n - 10) as char
  }

  // Facts about concatenation, proved here, away from the larger contexts
  // that need them.

  lemma EmptyPrefix<T>(s: seq<T>)
    ensures [] + s == s
  {
  }

  lemma Associative<T>(a: seq<T>, b: seq<T>, c: seq<T>)
    ensures a + b + c == a + (b + c)
  {
  }

  lemma SingletonsConcat<T>(x: T, y: T)
    ensures [x] + [y] == [x, y]
  {
  }

  lemma TakeOneMore<T>(s: seq<T>, n: nat)
    requires n < |s|
    ensures s[..n + 1] == s[..n] + [s[n]]
  {
  }

  lemma TakeAll<T>(s: seq<T>)
    ensures s[..|s|] == s
  {
  }

  lemma SplitAt<T>(s: seq<T>, n: nat)
    requires n <= |s|
    ensures s == s[..n] + s[n..]
  {
  }

  lemma HeadTail<T>(a: seq<T>, x: seq<T>)
    requires a != []
    ensures [a[0]] + (a[1..] + x) == a + x
  {
    assert a == [a[0]] + a[1..];
  }

  /** Some element of `init + [last]` satisfies `p` exactly when one of `init` does or `last` does. */
  lemma ExistsSnoc<T>(init: seq<T>, last: T, p: T -> bool)
    ensures (exists i :: 0 <= i < |init + [last]| && p((init + [last])[i]))
        <==> (exists i :: 0 <= i < |init| && p(init[i])) || p(last)
  {
    var s := init + [last];
    if exists i :: 0 <= i < |s| && p(s[i]) {
      var i :| 0 <= i < |s| && p(s[i]);
      if i < |init| {
        assert s[i] == init[i];
      }
    }
    if exists i :: 0 <= i < |init| && p(init[i]) {
      var i :| 0 <= i < |init| && p(init[i]);
      assert s[i] == init[i];
    }
    assert s[|init|] == last;
  }

  lemma InitLast<T>(s: seq<T>)
    requires s != []
    ensures s == s[..|s| - 1] + [s[|s| - 1]]
  {
  }

  lemma SnocTwice<T>(a: seq<T>, x: T, y: T)
    ensures a + [x, y] == (a + [x]) + [y]
  {
  }
}
