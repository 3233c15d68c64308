/** Text and list helpers shared by the printers, the scanners and the parsers:
    the JavaScript string operations the repository relies on, and their laws. */
module JsText {

  datatype Option<+T> = None | Some(value: T)

  /** What a call does: it returns a value, or it throws. */
  datatype Outcome<+T> = Returned(value: T) | Threw(message: string)

  // ----- sequences -----

  function Flatten<T>(xss: seq<seq<T>>): (xs: seq<T>)
  {
    if xss == [] then [] else xss[0] + Flatten(xss[1..])
  }

  lemma {:induction false} FlattenAppend<T>(a: seq<seq<T>>, b: seq<seq<T>>)
    ensures Flatten(a + b) == Flatten(a) + Flatten(b)
  {
    if a == [] {
      assert a + b == b;
    } else {
      FlattenAppend(a[1..], b);
      assert (a + b)[0] == a[0] && (a + b)[1..] == a[1..] + b;
    }
  }

  lemma FlattenSnoc<T>(a: seq<seq<T>>, x: seq<T>)
    ensures Flatten(a + [x]) == Flatten(a) + x
  {
    FlattenAppend(a, [x]);
    assert Flatten([x]) == x by { assert [x][1..] == []; }
  }

  lemma Assoc<T>(a: seq<T>, b: seq<T>, c: seq<T>)
    ensures (a + b) + c == a + (b + c)
  {
  }

  /** The first `i + 1` elements are the first `i` and one more. */
  lemma TakeSnoc<T>(s: seq<T>, i: nat)
    requires i < |s|
    ensures s[..i + 1] == s[..i] + [s[i]]
  {
  }

  function Map<A, B>(f: A -> B, xs: seq<A>): (ys: seq<B>)
    ensures |ys| == |xs|
    ensures forall i :: 0 <= i < |xs| ==> ys[i] == f(xs[i])
  {
    seq(|xs|, i requires 0 <= i < |xs| => f(xs[i]))
  }

  /** `xs.filter(keep)` */
  function Filter<T>(xs: seq<T>, keep: T -> bool): seq<T>
  {
    if xs == [] then [] else (if keep(xs[0]) then [xs[0]] else []) + Filter(xs[1..], keep)
  }

  lemma {:induction false} FilterMembers<T(!new)>(xs: seq<T>, keep: T -> bool)
    ensures forall x :: x in Filter(xs, keep) <==> x in xs && keep(x)
  {
    if xs != [] {
      FilterMembers(xs[1..], keep);
      assert xs == [xs[0]] + xs[1..];
    }
  }

  /** A filter keeps all iff everything passes. */
  lemma {:induction false} FilterKeepsAll<T>(xs: seq<T>, keep: T -> bool)
    ensures |Filter(xs, keep)| <= |xs|
    ensures |Filter(xs, keep)| == |xs| <==> forall i :: 0 <= i < |xs| ==> keep(xs[i])
    ensures |Filter(xs, keep)| == |xs| ==> Filter(xs, keep) == xs
  {
    if xs != [] {
      var rest := xs[1..];
      FilterKeepsAll(rest, keep);
      assert xs == [xs[0]] + rest;
      assert (forall i :: 0 <= i < |xs| ==> keep(xs[i])) <==>
             (keep(xs[0]) && forall i :: 0 <= i < |rest| ==> keep(rest[i])) by {
        assert forall i :: 0 <= i < |rest| ==> rest[i] == xs[i + 1];
        assert forall i :: 0 < i < |xs| ==> xs[i] == rest[i - 1];
      }
    }
  }

  lemma {:induction false} FilterSnoc<T>(xs: seq<T>, x: T, keep: T -> bool)
    ensures Filter(xs + [x], keep) == Filter(xs, keep) + (if keep(x) then [x] else [])
  {
    if xs == [] {
      assert [x][1..] == [] && xs + [x] == [x];
    } else {
      FilterSnoc(xs[1..], x, keep);
      assert (xs + [x])[1..] == xs[1..] + [x];
    }
  }

  ghost predicate Distinct<T>(xs: seq<T>)
  {
    forall i, j :: 0 <= i < j < |xs| ==> xs[i] != xs[j]
  }

  // ----- strings -----

  /** `text.split(sep)` for a one-character separator. */
  function Split(text: string, sep: char): (parts: seq<string>)
    ensures |parts| >= 1
  {
    if text == "" then [""]
    else
      var rest := Split(text[1..], sep);
      if text[0] == sep then [""] + rest else [[text[0]] + rest[0]] + rest[1..]
  }

  /** `parts.join(sep)` for a one-character separator. */
  function Join(parts: seq<string>, sep: char): string
  {
    if parts == [] then ""
    else if |parts| == 1 then parts[0]
    else parts[0] + [sep] + Join(parts[1..], sep)
  }

  lemma {:induction false} JoinSplit(text: string, sep: char)
    ensures Join(Split(text, sep), sep) == text
  {
    if text != "" {
      JoinSplit(text[1..], sep);
      var rest := Split(text[1..], sep);
      if text[0] == sep {
        assert ([""] + rest)[1..] == rest;
      } else if |rest| > 1 {
        assert ([[text[0]] + rest[0]] + rest[1..])[1..] == rest[1..];
      }
    }
  }

  lemma SplitFirstPart(part: string, rest: string, sep: char)
    requires sep !in part
    ensures Split(part, sep) == [part]
    ensures Split(part + [sep] + rest, sep) == [part] + Split(rest, sep)
    decreases |part|
  {
    if part == "" {
      assert part + [sep] + rest == [sep] + rest && ([sep] + rest)[1..] == rest;
    } else {
      var more := part[1..];
      SplitFirstPart(more, rest, sep);
      assert part == [part[0]] + more;
      assert part + [sep] + rest == [part[0]] + (more + [sep] + rest);
    }
  }

  /** Splitting undoes joining parts that are free of the separator. */
  lemma {:induction false} SplitJoin(parts: seq<string>, sep: char)
    requires parts != [] && forall i :: 0 <= i < |parts| ==> sep !in parts[i]
    ensures Split(Join(parts, sep), sep) == parts
  {
    if |parts| == 1 {
      SplitFirstPart(parts[0], "", sep);
    } else {
      SplitJoin(parts[1..], sep);
      SplitFirstPart(parts[0], Join(parts[1..], sep), sep);
      assert parts == [parts[0]] + parts[1..];
    }
  }

  lemma {:induction false} SplitHasNoSeparator(text: string, sep: char)
    ensures forall p :: p in Split(text, sep) ==> sep !in p
  {
    if text != "" {
      SplitHasNoSeparator(text[1..], sep);
      var rest := Split(text[1..], sep);
      assert rest[0] in rest;
      forall p | p in Split(text, sep) ensures sep !in p {
        assert p in rest || p == "" || p == [text[0]] + rest[0];
      }
    }
  }

  /** Every `quote` doubled: `text.replace(/q/g, "qq")`. */
  function Doubled(text: string, quote: char): string
  {
    if text == "" then ""
    else if text[0] == quote then [quote, quote] + Doubled(text[1..], quote)
    else [text[0]] + Doubled(text[1..], quote)
  }

  // ----- white space -----

  /** The characters `trim` removes and `\s` matches (ECMAScript WhiteSpace and LineTerminator). */
  predicate IsSpace(c: char)
  {
    '\t' <= c <= '\r' || c == ' ' || c == '\U{a0}' || c == '\U{1680}' || '\U{2000}' <= c <= '\U{200a}' ||
    c == '\U{2028}' || c == '\U{2029}' || c == '\U{202f}' || c == '\U{205f}' || c == '\U{3000}' || c == '\U{feff}'
  }

  function TrimStart(text: string): (r: string)
    ensures |r| <= |text|
    ensures r == "" || !IsSpace(r[0])
  {
    if text != "" && IsSpace(text[0]) then TrimStart(text[1..]) else text
  }

  function TrimEnd(text: string): (r: string)
    ensures |r| <= |text|
    ensures r == "" || !IsSpace(r[|r| - 1])
    ensures r <= text
  {
    if text != "" && IsSpace(text[|text| - 1]) then TrimEnd(text[..|text| - 1]) else text
  }

  function Trim(text: string): (r: string)
    ensures |r| <= |text|
    ensures r == "" || (!IsSpace(r[0]) && !IsSpace(r[|r| - 1]))
  {
    TrimEnd(TrimStart(text))
  }

  predicate AllSpace(text: string)
  {
    forall c :: c in text ==> IsSpace(c)
  }

  lemma {:induction false} TrimStartTakesSpaces(text: string) returns (before: string)
    ensures text == before + TrimStart(text) && AllSpace(before)
  {
    if text != "" && IsSpace(text[0]) {
      var more := TrimStartTakesSpaces(text[1..]);
      before := [text[0]] + more;
      assert text == [text[0]] + text[1..];
    } else {
      before := "";
    }
  }

  lemma {:induction false} TrimEndTakesSpaces(text: string) returns (after: string)
    ensures text == TrimEnd(text) + after && AllSpace(after)
    decreases |text|
  {
    if text != "" && IsSpace(text[|text| - 1]) {
      var more := TrimEndTakesSpaces(text[..|text| - 1]);
      after := more + [text[|text| - 1]];
      assert text == text[..|text| - 1] + [text[|text| - 1]];
    } else {
      after := "";
    }
  }

  /** Trimming takes white space off both ends, and nothing else. */
  lemma TrimTakesSpaces(text: string) returns (before: string, after: string)
    ensures text == before + Trim(text) + after && AllSpace(before) && AllSpace(after)
  {
    before := TrimStartTakesSpaces(text);
    after := TrimEndTakesSpaces(TrimStart(text));
    assert before + TrimStart(text) == before + Trim(text) + after;
  }

  lemma TrimIsIdempotent(text: string)
    ensures Trim(Trim(text)) == Trim(text)
  {
  }

  // ----- positional numerals -----

  function DigitChar(d: nat): char
    requires d < 16
  {
    if d < 10 then ('0' as int + d) as char else ('a' as int + (d - 10)) as char
  }

  predicate IsDigit(c: char, radix: nat)
  {
    ('0' <= c <= '9' && (c as int - '0' as int) < radix) ||
    ('a' <= c <= 'f' && (c as int - 'a' as int) + 10 < radix)
  }

  function DigitValue(c: char): nat
    requires IsDigit(c, 16)
  {
    if c <= '9' then c as int - '0' as int else c as int - 'a' as int + 10
  }

  predicate Radix(radix: nat)
  {
    radix == 10 || radix == 16
  }

  function AllButLast(n: nat, radix: nat): (q: nat)
    requires Radix(radix)
    ensures n >= radix ==> q < n
    ensures 0 <= n - q * radix < radix
  {
    if radix == 10 then n / 10 else n / 16
  }

  /** `n.toString(radix)` for a natural number. */
  function Digits(n: nat, radix: nat): (t: string)
    requires Radix(radix)
    ensures |t| >= 1 && forall i :: 0 <= i < |t| ==> IsDigit(t[i], radix)
    decreases n
  {
    if n < radix then [DigitChar(n)]
    else
      var q := AllButLast(n, radix);
      Digits(q, radix) + [DigitChar(n - q * radix)]
  }

  /** Read digits greedily: the number read, and the text left over. */
  function ReadDigits(text: string, radix: nat, acc: nat): (nat, string)
    requires Radix(radix)
    decreases |text|
  {
    if text != "" && IsDigit(text[0], radix)
    then ReadDigits(text[1..], radix, acc * radix + DigitValue(text[0]))
    else (acc, text)
  }

  lemma ReadOneMore(d: char, rest: string, radix: nat, acc: nat)
    requires Radix(radix) && IsDigit(d, radix)
    ensures ReadDigits([d] + rest, radix, acc) == ReadDigits(rest, radix, acc * radix + DigitValue(d))
  {
    assert ([d] + rest)[1..] == rest;
  }

  /** Reading a printed number consumes exactly its digits. */
  lemma {:induction false} ReadPrinted(n: nat, radix: nat, rest: string)
    requires Radix(radix)
    ensures ReadDigits(Digits(n, radix) + rest, radix, 0) == ReadDigits(rest, radix, n)
    decreases n
  {
    if n < radix {
      assert ([DigitChar(n)] + rest)[1..] == rest;
    } else {
      var q := AllButLast(n, radix);
      var d := DigitChar(n - q * radix);
      ReadPrinted(q, radix, [d] + rest);
      Assoc(Digits(q, radix), [d], rest);
      ReadOneMore(d, rest, radix, q);
    }
  }

  /** `String(n)` for an integer. */
  function IntText(n: int): string
  {
    if n < 0 then "-" + Digits(-n, 10) else Digits(n, 10)
  }
}
