/** String helpers shared by the model: Python's one-character `str.split`,
    its inverse `str.join`, and the decimal rendering used by `"%d"`. */
module Strings {

  /** `sep.join(ts)`: the tokens with one separator between neighbours. */
  function Join(ts: seq<string>, sep: char): string
    requires |ts| >= 1
    decreases |ts|
  {
    if |ts| == 1 then ts[0] else ts[0] + [sep] + Join(ts[1..], sep)
  }

  /** `s.split(sep)` for a one-character separator: every occurrence of `sep`
      ends a token, so doubled, leading and trailing separators yield empty
      tokens, and the empty string yields one empty token. */
  function Split(s: string, sep: char): (ts: seq<string>)
    ensures |ts| >= 1
    ensures forall i :: 0 <= i < |ts| ==> sep !in ts[i]
    ensures Join(ts, sep) == s
    decreases |s|
  {
    if |s| == 0 then [""]
    else
      var rest := Split(s[1..], sep);
      if s[0] == sep then
        assert s == [sep] + s[1..];
        [""] + rest
      else
        var ts := [[s[0]] + rest[0]] + rest[1..];
        assert ts[1..] == rest[1..];
        assert |rest| > 1 ==> Join(rest, sep) == rest[0] + [sep] + Join(rest[1..], sep);
        assert s == [s[0]] + s[1..];
        ts
  }

  /** Splitting a separator-free prefix glued onto a string extends the first token. */
  lemma {:induction false} SplitPrefix(t: string, rest: string, sep: char)
    requires sep !in t
    ensures Split(t + rest, sep) == [t + Split(rest, sep)[0]] + Split(rest, sep)[1..]
    decreases |t|
  {
    if |t| == 0 {
      var r := Split(rest, sep);
      assert t + rest == rest;
      assert t + r[0] == r[0];
      assert r == [r[0]] + r[1..];
    } else {
      var u := t[1..];
      SplitPrefix(u, rest, sep);
      assert (t + rest)[1..] == u + rest;
      assert (t + rest)[0] == t[0];
      assert [t[0]] + (u + Split(rest, sep)[0]) == t + Split(rest, sep)[0];
    }
  }

  /** `split` undoes `join` when no token holds the separator. */
  lemma {:induction false} SplitJoin(ts: seq<string>, sep: char)
    requires |ts| >= 1
    requires forall i :: 0 <= i < |ts| ==> sep !in ts[i]
    ensures Split(Join(ts, sep), sep) == ts
    decreases |ts|
  {
    if |ts| == 1 {
      SplitPrefix(ts[0], "", sep);
      assert ts[0] + "" == ts[0];
      assert [ts[0] + ""] == ts;
    } else {
      var tail := Join(ts[1..], sep);
      var rest := [sep] + tail;
      assert Join(ts, sep) == ts[0] + rest;
      assert forall i :: 0 <= i < |ts[1..]| ==> sep !in ts[1..][i] by {
        forall i | 0 <= i < |ts[1..]| ensures sep !in ts[1..][i] {
          assert ts[1..][i] == ts[i + 1];
        }
      }
      SplitJoin(ts[1..], sep);
      assert Split(rest, sep) == [""] + ts[1..] by {
        assert rest[0] == sep;
        assert rest[1..] == tail;
      }
      SplitPrefix(ts[0], rest, sep);
      assert ([""] + ts[1..])[1..] == ts[1..];
      assert ts[0] + "" == ts[0];
      assert [ts[0]] + ts[1..] == ts;
    }
  }

  /** The decimal digit character for `d`. */
  function DigitChar(d: nat): (c: char)
    requires d < 10
    ensures '0' <= c <= '9'
    ensures c as int - '0' as int == d
  {
    ('0' as int + d) as char
  }

  predicate IsDigit(c: char) {
    '0' <= c <= '9'
  }

  /** `"%d" % n` for a non-negative `n`: its decimal digits, most significant first. */
  function NatToString(n: nat): (s: string)
    ensures |s| >= 1
    ensures forall i :: 0 <= i < |s| ==> IsDigit(s[i])
    ensures |s| > 1 ==> s[0] != '0'
    decreases n
  {
    if n < 10 then [DigitChar(n)] else NatToString(n / 10) + [DigitChar(n % 10)]
  }

  /** Reads a string of decimal digits back as a number. */
  function ParseDigits(s: string): nat
    requires forall i :: 0 <= i < |s| ==> IsDigit(s[i])
    decreases |s|
  {
    if |s| == 0 then 0
    else
      assert IsDigit(s[|s| - 1]);
      ParseDigits(s[..|s| - 1]) * 10 + (s[|s| - 1] as int - '0' as int)
  }

  /** The decimal rendering round-trips through `ParseDigits`. */
  lemma {:induction false} ParseNatToString(n: nat)
    ensures ParseDigits(NatToString(n)) == n
    decreases n
  {
    var s := NatToString(n);
    if n >= 10 {
      ParseNatToString(n / 10);
      assert s[..|s| - 1] == NatToString(n / 10);
    }
  }

  /** Distinct numbers render as distinct strings. */
  lemma NatToStringInjective(m: nat, n: nat)
    requires NatToString(m) == NatToString(n)
    ensures m == n
  {
    ParseNatToString(m);
    ParseNatToString(n);
  }
}
