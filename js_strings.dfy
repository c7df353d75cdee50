/** JavaScript's `String.prototype.split` with a one-character separator, and
    `parseInt(s, 10)`, on Dafny strings.

    A string is a sequence of characters. The CIDR code only splits on `/` and
    `.` and only looks for the whitespace characters and the ASCII digits, all
    of which are single UTF-16 code units, so characters and code units agree
    for everything this module inspects. */
module JsStrings {
  import opened Wrappers

  // ---------------------------------------------------------------------------
  // split

  /** `s.split(sep)`: the pieces of `s` between occurrences of `sep`, in order;
      an empty string gives one empty piece, and adjacent separators give
      empty pieces. */
  function Split(s: string, sep: char): (r: seq<string>)
    ensures |r| >= 1
    ensures forall i :: 0 <= i < |r| ==> sep !in r[i]
  {
    if s == [] then [[]]
    else
      var rest := Split(s[1..], sep);
      if s[0] == sep then [[]] + rest
      else [[s[0]] + rest[0]] + rest[1..]
  }

  /** `fields.join(sep)`: the inverse of `Split`. */
  function Join(fields: seq<string>, sep: char): string
  {
    if |fields| == 0 then []
    else if |fields| == 1 then fields[0]
    else fields[0] + [sep] + Join(fields[1..], sep)
  }

  lemma JoinFour(fields: seq<string>, sep: char)
    requires |fields| == 4
    ensures Join(fields, sep) == fields[0] + [sep] + fields[1] + [sep] + fields[2] + [sep] + fields[3]
  {
    var t := fields[1..];
    assert t[1..][1..] == [fields[3]];
    assert Join(t[1..], sep) == fields[2] + [sep] + fields[3];
    assert Join(t, sep) == fields[1] + [sep] + (fields[2] + [sep] + fields[3]);
  }

  /** Joining the pieces again gives back the string that was split. */
  lemma {:induction false} JoinSplit(s: string, sep: char)
    ensures Join(Split(s, sep), sep) == s
  {
    if s != [] {
      var rest := Split(s[1..], sep);
      JoinSplit(s[1..], sep);
      if s[0] == sep {
        assert Split(s, sep) == [[]] + rest;
        assert Join(Split(s, sep), sep) == [] + [sep] + Join(rest, sep);
      } else {
        var r := Split(s, sep);
        assert r == [[s[0]] + rest[0]] + rest[1..];
        if |rest| == 1 {
          assert Join(r, sep) == [s[0]] + rest[0];
        } else {
          assert r[1..] == rest[1..];
          assert Join(r, sep) == [s[0]] + rest[0] + [sep] + Join(rest[1..], sep);
        }
      }
    }
  }

  /** Joining one more piece appends a separator and the piece. */
  lemma {:induction false} JoinAppend(fields: seq<string>, last: string, sep: char)
    requires |fields| >= 1
    ensures Join(fields + [last], sep) == Join(fields, sep) + [sep] + last
  {
    if |fields| > 1 {
      var tail := fields[1..];
      assert (fields + [last])[1..] == tail + [last];
      JoinAppend(tail, last, sep);
      assert fields[0] + [sep] + (Join(tail, sep) + [sep] + last)
          == (fields[0] + [sep] + Join(tail, sep)) + [sep] + last;
    }
  }

  /** A separator followed by a separator-free piece adds that piece at the end. */
  lemma SplitAppendPiece(s: string, last: string, sep: char)
    requires sep !in last
    ensures Split(s + [sep] + last, sep) == Split(s, sep) + [last]
  {
    var fields := Split(s, sep);
    JoinSplit(s, sep);
    JoinAppend(fields, last, sep);
    SplitJoin(fields + [last], sep);
  }

  /** A separator-free prefix extends the first piece. */
  lemma {:induction false} SplitPrepend(f: string, t: string, sep: char)
    requires sep !in f
    ensures Split(f + t, sep) == [f + Split(t, sep)[0]] + Split(t, sep)[1..]
  {
    if f == [] {
      var st := Split(t, sep);
      assert f + t == t && f + st[0] == st[0];
      assert [st[0]] + st[1..] == st;
    } else {
      var st := Split(t, sep);
      SplitPrepend(f[1..], t, sep);
      assert f + t == [f[0]] + (f[1..] + t);
      SplitCons(f[0], f[1..] + t, sep);
      assert [f[0]] + (f[1..] + st[0]) == f + st[0];
    }
  }

  /** A first character other than the separator starts the first piece. */
  lemma SplitCons(c: char, u: string, sep: char)
    requires c != sep
    ensures Split([c] + u, sep) == [[c] + Split(u, sep)[0]] + Split(u, sep)[1..]
  {
    assert ([c] + u)[1..] == u;
  }

  /** Splitting pieces that contain no separator, once joined, gives them back. */
  lemma {:induction false} SplitJoin(fields: seq<string>, sep: char)
    requires |fields| >= 1
    requires forall i :: 0 <= i < |fields| ==> sep !in fields[i]
    ensures Split(Join(fields, sep), sep) == fields
  {
    if |fields| == 1 {
      SplitPrepend(fields[0], [], sep);
      assert fields[0] + [] == fields[0];
    } else {
      var t := Join(fields[1..], sep);
      SplitJoin(fields[1..], sep);
      assert Split([sep] + t, sep) == [[]] + fields[1..];
      SplitPrepend(fields[0], [sep] + t, sep);
      assert fields[0] + [sep] + t == fields[0] + ([sep] + t);
      assert fields[0] + [] == fields[0];
      assert ([[]] + fields[1..])[1..] == fields[1..];
      assert [fields[0]] + fields[1..] == fields;
    }
  }

  /** A character occurs in the joined string only as a separator or inside a piece. */
  lemma {:induction false} NotInJoin(fields: seq<string>, sep: char, c: char)
    requires c != sep
    requires forall i :: 0 <= i < |fields| ==> c !in fields[i]
    ensures c !in Join(fields, sep)
  {
    if |fields| > 1 {
      NotInJoin(fields[1..], sep, c);
      assert c !in fields[0];
    }
  }

  /** A character outside the whole string is outside every piece of it. */
  lemma NotInSplit(s: string, sep: char, c: char)
    requires c !in s
    ensures forall i :: 0 <= i < |Split(s, sep)| ==> c !in Split(s, sep)[i]
  {
    var r := Split(s, sep);
    JoinSplit(s, sep);
    forall i | 0 <= i < |r|
      ensures c !in r[i]
    {
      if c in r[i] {
        InJoin(r, sep, i, c);
        assert false;
      }
    }
  }

  lemma {:induction false} InJoin(fields: seq<string>, sep: char, i: nat, c: char)
    requires i < |fields| && c in fields[i]
    ensures c in Join(fields, sep)
  {
    if i > 0 {
      InJoin(fields[1..], sep, i - 1, c);
    }
  }

  // ---------------------------------------------------------------------------
  // parseInt(_, 10)

  /** The characters `parseInt` skips before the number: ECMAScript's WhiteSpace
      (tab, vertical tab, form feed, the byte order mark and every Unicode
      space separator) and LineTerminator (line feed, carriage return, line
      and paragraph separators). */
  predicate IsWhiteSpace(c: char)
  {
    var u := c as int;
    // WhiteSpace: TAB, VT, FF, ZWNBSP (byte order mark)
    || u == 0x09 || u == 0x0B || u == 0x0C || u == 0xFEFF
    // WhiteSpace: the Unicode space separators (general category Zs)
    || u == 0x20 || u == 0xA0 || u == 0x1680 || (0x2000 <= u <= 0x200A)
    || u == 0x202F || u == 0x205F || u == 0x3000
    // LineTerminator: LF, CR, LINE SEPARATOR, PARAGRAPH SEPARATOR
    || u == 0x0A || u == 0x0D || u == 0x2028 || u == 0x2029
  }

  predicate IsDigit(c: char)
  {
    '0' <= c <= '9'
  }

  predicate AllWhiteSpace(s: string)
  {
    forall i :: 0 <= i < |s| ==> IsWhiteSpace(s[i])
  }

  predicate AllDigits(s: string)
  {
    forall i :: 0 <= i < |s| ==> IsDigit(s[i])
  }

  /** `s` with its leading whitespace removed. */
  function TrimStart(s: string): (r: string)
    ensures r == [] || !IsWhiteSpace(r[0])
  {
    if s != [] && IsWhiteSpace(s[0]) then TrimStart(s[1..]) else s
  }

  /** The longest prefix of `s` made of decimal digits. */
  function LeadingDigits(s: string): (r: string)
    ensures AllDigits(r)
  {
    if s != [] && IsDigit(s[0]) then [s[0]] + LeadingDigits(s[1..]) else []
  }

  /** `TrimStart` removes exactly the whitespace the string starts with. */
  lemma {:induction false} TrimStartRemovesLeadingWhiteSpace(s: string)
    ensures |TrimStart(s)| <= |s| && TrimStart(s) == s[|s| - |TrimStart(s)|..]
    ensures AllWhiteSpace(s[..|s| - |TrimStart(s)|])
  {
    if s != [] && IsWhiteSpace(s[0]) {
      TrimStartRemovesLeadingWhiteSpace(s[1..]);
      var k := |s| - |TrimStart(s)|;
      assert s[1..][..k - 1] == s[1..k];
    }
  }

  /** `LeadingDigits` is the longest digit prefix: a prefix, and the next
      character, if any, is not a digit. */
  lemma {:induction false} LeadingDigitsIsLongest(s: string)
    ensures |LeadingDigits(s)| <= |s| && LeadingDigits(s) == s[..|LeadingDigits(s)|]
    ensures |LeadingDigits(s)| == |s| || !IsDigit(s[|LeadingDigits(s)|])
  {
    if s != [] && IsDigit(s[0]) {
      LeadingDigitsIsLongest(s[1..]);
    }
  }

  /** The value of a string of decimal digits, most significant first. */
  function DigitsValue(d: string): nat
    requires AllDigits(d)
  {
    if d == [] then 0 else DigitsValue(d[..|d| - 1]) * 10 + (d[|d| - 1] as int - '0' as int)
  }

  /** `parseInt(s, 10)`: skip leading whitespace, take one optional sign, then
      the longest run of decimal digits; anything after it is ignored. With no
      digit there the result is `NaN`, here `None`. A negative zero is 0.
      It finds no number exactly when the first character after the whitespace
      is neither a digit nor a sign followed by a digit. */
  function ParseInt(s: string): (r: Option<int>)
    ensures r == None <==>
      var t := TrimStart(s);
      || t == []
      || (!IsDigit(t[0]) && (!(t[0] == '+' || t[0] == '-') || |t| == 1 || !IsDigit(t[1])))
  {
    var t := TrimStart(s);
    var negative := t != [] && t[0] == '-';
    var u := if t != [] && (t[0] == '-' || t[0] == '+') then t[1..] else t;
    var digits := LeadingDigits(u);
    if digits == [] then None
    else
      var value: int := DigitsValue(digits);
      Some(if negative then -value else value)
  }

  /** Decimal numeral of a natural number, without leading zeros. */
  function Decimal(n: nat): (r: string)
    ensures r != [] && AllDigits(r)
  {
    if n < 10 then [('0' as int + n) as char]
    else Decimal(n / 10) + [('0' as int + n % 10) as char]
  }

  lemma {:induction false} DecimalValue(n: nat)
    ensures DigitsValue(Decimal(n)) == n
  {
    if n >= 10 {
      DecimalValue(n / 10);
      var d := Decimal(n);
      assert d[..|d| - 1] == Decimal(n / 10);
    }
  }

  lemma {:induction false} LeadingDigitsOf(digits: string, rest: string)
    requires AllDigits(digits)
    requires rest == [] || !IsDigit(rest[0])
    ensures LeadingDigits(digits + rest) == digits
  {
    if digits != [] {
      assert (digits + rest)[1..] == digits[1..] + rest;
      LeadingDigitsOf(digits[1..], rest);
    } else {
      assert digits + rest == rest;
    }
  }

  lemma {:induction false} TrimStartOf(ws: string, t: string)
    requires AllWhiteSpace(ws)
    requires t == [] || !IsWhiteSpace(t[0])
    ensures TrimStart(ws + t) == t
  {
    if ws != [] {
      assert (ws + t)[1..] == ws[1..] + t;
      TrimStartOf(ws[1..], t);
    } else {
      assert ws + t == t;
    }
  }

  lemma ParseIntOfTrimmed(s: string, sign: string, digits: string, rest: string)
    requires TrimStart(s) == sign + digits + rest
    requires sign == "" || sign == "+" || sign == "-"
    requires LeadingDigits(digits + rest) == digits && digits != []
    ensures ParseInt(s)
         == Some(if sign == "-" then -(DigitsValue(digits) as int) else DigitsValue(digits))
  {
    var u := digits + rest;
    var t := sign + u;
    assert sign + digits + rest == t;
    assert t[0] == if sign == "" then digits[0] else sign[0];
    if sign != "" {
      assert t[1..] == u;
    } else {
      assert t == u;
    }
    var negative := t != [] && t[0] == '-';
    var unsigned := if t != [] && (t[0] == '-' || t[0] == '+') then t[1..] else t;
    assert negative == (sign == "-");
    assert unsigned == u;
    var value: int := DigitsValue(digits);
    assert ParseInt(s) == Some(if negative then -value else value);
  }

  /** What `parseInt` reads: whitespace, an optional sign, a run of digits and
      anything that does not continue the run. */
  lemma ParseIntNumeral(ws: string, sign: string, digits: string, rest: string)
    requires AllWhiteSpace(ws)
    requires sign == "" || sign == "+" || sign == "-"
    requires digits != [] && AllDigits(digits)
    requires rest == [] || !IsDigit(rest[0])
    ensures ParseInt(ws + sign + digits + rest)
         == Some(if sign == "-" then -(DigitsValue(digits) as int) else DigitsValue(digits))
  {
    assert TrimStart(ws + sign + digits + rest) == sign + digits + rest by {
      var t := sign + (digits + rest);
      assert ws + sign + digits + rest == ws + t;
      assert sign + digits + rest == t;
      assert t[0] == if sign == "" then digits[0] else sign[0];
      TrimStartOf(ws, t);
    }
    assert LeadingDigits(digits + rest) == digits by {
      LeadingDigitsOf(digits, rest);
    }
    ParseIntOfTrimmed(ws + sign + digits + rest, sign, digits, rest);
  }

  /** `parseInt` reads back the decimal numeral of any natural number, whatever follows it. */
  lemma ParseIntDecimal(n: nat, rest: string)
    requires rest == [] || !IsDigit(rest[0])
    ensures ParseInt(Decimal(n) + rest) == Some(n)
  {
    ParseIntNumeral("", "", Decimal(n), rest);
    assert "" + "" + Decimal(n) + rest == Decimal(n) + rest;
    DecimalValue(n);
  }
}
