/**
 * The JavaScript string built-ins that the diff service and the status parser
 * rely on, stated over `string` (a sequence of characters): `split('\n')`,
 * `join`, `startsWith`, `includes`, `substring`, `padStart`, `String(n)` on
 * integers, `parseInt` on a run of decimal digits, and `${v}` interpolation.
 */
module JsText {

  /** A JavaScript argument as the core receives it: a string, `null`,
      `undefined`, or any other value, carried with the text that `String(v)`
      gives it. */
  datatype JsValue = Str(s: string) | Null | Undefined | Other(shown: string)

  /** The text that a template literal `${v}` produces for `v`. */
  function Interpolate(v: JsValue): string
  {
    match v
    case Str(s) => s
    case Null => "null"
    case Undefined => "undefined"
    case Other(t) => t
  }

  /** `!v || typeof v !== 'string'` is false exactly for a non-empty string. */
  predicate IsNonEmptyString(v: JsValue)
  {
    v.Str? && v.s != ""
  }

  /** `s.startsWith(prefix)` */
  predicate StartsWith(s: string, prefix: string)
  {
    prefix <= s
  }

  /** `pat` occurs in `s` at index `i`. */
  predicate OccursAt(s: string, pat: string, i: nat)
  {
    i + |pat| <= |s| && s[i..i + |pat|] == pat
  }

  /** `s.includes(pat)` */
  predicate Includes(s: string, pat: string)
    decreases |s|
  {
    pat <= s || (|s| > 0 && Includes(s[1..], pat))
  }

  /** `includes` holds exactly when the pattern occurs at some index. */
  lemma {:induction false} IncludesIff(s: string, pat: string)
    ensures Includes(s, pat) <==> exists i: nat :: OccursAt(s, pat, i)
    decreases |s|
  {
    if pat <= s {
      assert OccursAt(s, pat, 0);
    } else if |s| > 0 {
      IncludesIff(s[1..], pat);
      if Includes(s[1..], pat) {
        var i: nat :| OccursAt(s[1..], pat, i);
        assert s[i + 1..i + 1 + |pat|] == s[1..][i..i + |pat|];
        assert OccursAt(s, pat, i + 1);
      } else {
        forall i: nat | OccursAt(s, pat, i)
          ensures false
        {
          if i > 0 {
            assert s[1..][i - 1..i - 1 + |pat|] == s[i..i + |pat|];
            assert OccursAt(s[1..], pat, i - 1);
          }
        }
      }
    }
  }

  /** For a one-character pattern, `includes` is plain membership. */
  lemma {:induction false} IncludesChar(s: string, c: char)
    ensures Includes(s, [c]) <==> c in s
    decreases |s|
  {
    if |s| > 0 {
      IncludesChar(s[1..], c);
      assert s == [s[0]] + s[1..];
    }
  }

  /** `parts.join(sep)` */
  function Join(parts: seq<string>, sep: string): string
    decreases |parts|
  {
    if |parts| == 0 then ""
    else if |parts| == 1 then parts[0]
    else parts[0] + sep + Join(parts[1..], sep)
  }

  /** The joined text starts with the first part. */
  lemma JoinStartsWithHead(parts: seq<string>, sep: string)
    requires |parts| >= 1
    ensures parts[0] <= Join(parts, sep)
  {
  }

  /** Putting a character in front of the first part puts it in front of the joined text. */
  lemma JoinConsHead(c: char, parts: seq<string>, sep: string)
    requires |parts| >= 1
    ensures Join([[c] + parts[0]] + parts[1..], sep) == [c] + Join(parts, sep)
  {
    var q := [[c] + parts[0]] + parts[1..];
    assert q[1..] == parts[1..];
  }

  /** `s.split('\n')`: the newline-free pieces between newlines. Like
      JavaScript, a text ending in a newline yields a final empty piece, and
      the empty text yields one empty piece. */
  function Split(s: string): (parts: seq<string>)
    ensures |parts| >= 1
    ensures forall k :: 0 <= k < |parts| ==> '\n' !in parts[k]
    ensures Join(parts, "\n") == s
    decreases |s|
  {
    if s == [] then [""]
    else
      var rest := Split(s[1..]);
      if s[0] == '\n' then
        assert [""] + rest == [""] + rest && ([""] + rest)[1..] == rest;
        [""] + rest
      else
        JoinConsHead(s[0], rest, "\n");
        assert s == [s[0]] + s[1..];
        [[s[0]] + rest[0]] + rest[1..]
  }

  /** A newline-free text splits to itself. */
  lemma {:induction false} SplitNoNewline(p: string)
    requires '\n' !in p
    ensures Split(p) == [p]
    decreases |p|
  {
    if p != [] {
      SplitNoNewline(p[1..]);
      assert p == [p[0]] + p[1..];
    }
  }

  /** Splitting at the first newline peels off the newline-free text before it. */
  lemma {:induction false} SplitAtNewline(p: string, rest: string)
    requires '\n' !in p
    ensures Split(p + "\n" + rest) == [p] + Split(rest)
    decreases |p|
  {
    var s := p + "\n" + rest;
    if p == [] {
      assert s[0] == '\n' && s[1..] == rest;
    } else {
      SplitAtNewline(p[1..], rest);
      assert s[0] == p[0] && s[1..] == p[1..] + "\n" + rest;
      assert [p[0]] + p[1..] == p;
    }
  }

  /** Round trip: joining newline-free parts with newlines and splitting
      again gives the parts back. */
  lemma {:induction false} SplitJoin(parts: seq<string>)
    requires |parts| >= 1
    requires forall k :: 0 <= k < |parts| ==> '\n' !in parts[k]
    ensures Split(Join(parts, "\n")) == parts
    decreases |parts|
  {
    if |parts| == 1 {
      SplitNoNewline(parts[0]);
    } else {
      SplitJoin(parts[1..]);
      SplitAtNewline(parts[0], Join(parts[1..], "\n"));
      assert [parts[0]] + parts[1..] == parts;
    }
  }

  /** `k` copies of `c`. */
  function Repeat(c: char, k: nat): (r: string)
    ensures |r| == k && forall i :: 0 <= i < k ==> r[i] == c
  {
    if k == 0 then "" else [c] + Repeat(c, k - 1)
  }

  /** `s.padStart(width, c)` for a one-character fill. */
  function PadStart(s: string, width: nat, c: char): (r: string)
    ensures |r| == if |s| >= width then |s| else width
    ensures r[|r| - |s|..] == s
    ensures forall i :: 0 <= i < |r| - |s| ==> r[i] == c
  {
    if |s| >= width then s else Repeat(c, width - |s|) + s
  }

  /** `s.substring(from)`, for a start index the text may be shorter than. */
  function Substring(s: string, from: nat): string
  {
    if from >= |s| then "" else s[from..]
  }

  predicate IsDigit(c: char)
  {
    '0' <= c <= '9'
  }

  /** A non-empty run of decimal digits, as `\d+` matches. */
  predicate IsDigits(s: string)
  {
    |s| > 0 && forall i :: 0 <= i < |s| ==> IsDigit(s[i])
  }

  function DigitChar(d: nat): (c: char)
    requires d < 10
    ensures IsDigit(c)
  {
    (d + '0' as int) as char
  }

  /** `String(n)` for a non-negative integer: its decimal digits. */
  function NatToString(n: nat): (r: string)
    ensures IsDigits(r)
    decreases n
  {
    if n < 10 then [DigitChar(n)] else NatToString(n / 10) + [DigitChar(n % 10)]
  }

  /** `String(v)` for an integer. */
  function IntToString(v: int): string
  {
    if v < 0 then "-" + NatToString(-v) else NatToString(v)
  }

  /** `parseInt(s)` for a text made only of decimal digits. */
  function DigitsValue(s: string): nat
    requires forall i :: 0 <= i < |s| ==> IsDigit(s[i])
    decreases |s|
  {
    if |s| == 0 then 0
    else DigitsValue(s[..|s| - 1]) * 10 + DigitValue(s[|s| - 1])
  }

  function DigitValue(c: char): (d: nat)
    requires IsDigit(c)
    ensures d < 10
  {
    c as int - '0' as int
  }

  /** Round trip: `parseInt(String(n)) == n`. */
  lemma {:induction false} DigitsValueOfNatToString(n: nat)
    ensures DigitsValue(NatToString(n)) == n
    decreases n
  {
    var s := NatToString(n);
    if n >= 10 {
      DigitsValueOfNatToString(n / 10);
      assert s[..|s| - 1] == NatToString(n / 10);
    }
  }

  /** A number is rendered in at most three characters exactly when it is below 1000. */
  lemma NatToStringWidth(n: nat)
    ensures n < 10 ==> |NatToString(n)| == 1
    ensures n < 1000 <==> |NatToString(n)| <= 3
  {
    if n >= 10 {
      assert |NatToString(n)| == |NatToString(n / 10)| + 1;
      if n < 100 {
        assert n / 10 < 10;
      } else if n < 1000 {
        assert 10 <= n / 10 < 100;
        assert |NatToString(n / 10)| == |NatToString(n / 100)| + 1;
      } else {
        assert n / 10 >= 100 && (n / 10) / 10 >= 10;
        assert |NatToString(n / 10)| == |NatToString((n / 10) / 10)| + 1;
        assert |NatToString((n / 10) / 10)| == |NatToString(((n / 10) / 10) / 10)| + 1;
      }
    }
  }
}
