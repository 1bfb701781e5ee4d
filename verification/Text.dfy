/** The string operations the agents take from rlib: `split` keeps empty fields,
    `replace` goes left to right over every occurrence, numbers are decimal. */
module Text {
  import opened Counting

  function Split(s: string, c: char): (parts: seq<string>)
    ensures |parts| >= 1
  {
    if s == [] then [[]]
    else
      var rest := Split(s[1..], c);
      if s[0] == c then [[]] + rest else [[s[0]] + rest[0]] + rest[1..]
  }

  function Join(parts: seq<string>, c: char): string {
    if parts == [] then []
    else if |parts| == 1 then parts[0]
    else parts[0] + [c] + Join(parts[1..], c)
  }

  /** A separator between two texts separates their fields. */
  lemma {:induction false} SplitConcat(a: string, c: char, b: string)
    ensures Split(a + [c] + b, c) == Split(a, c) + Split(b, c)
  {
    if a == [] {
      assert (a + [c] + b)[1..] == b;
    } else {
      assert (a + [c] + b)[1..] == a[1..] + [c] + b;
      SplitConcat(a[1..], c, b);
    }
  }

  lemma {:induction false} SplitPlain(s: string, c: char)
    requires c !in s
    ensures Split(s, c) == [s]
  {
    if s != [] {
      SplitPlain(s[1..], c);
      assert [s[0]] + s[1..] == s;
    }
  }

  /** No field holds the separator, and joining the fields gives the text back. */
  lemma {:induction false} JoinSplit(s: string, c: char)
    ensures Join(Split(s, c), c) == s
    ensures forall i :: 0 <= i < |Split(s, c)| ==> c !in Split(s, c)[i]
  {
    if s != [] {
      JoinSplit(s[1..], c);
      var rest := Split(s[1..], c);
      var parts := Split(s, c);
      if s[0] == c {
        assert parts[1..] == rest;
        assert [] + [c] + s[1..] == s;
      } else {
        assert parts[1..] == rest[1..];
        assert [s[0]] + s[1..] == s;
      }
    }
  }

  /** Splitting a joined list gives the list back exactly when no field of it holds
      the separator. */
  lemma {:induction false} SplitJoin(parts: seq<string>, c: char)
    requires |parts| >= 1
    ensures Split(Join(parts, c), c) == parts <==> forall i :: 0 <= i < |parts| ==> c !in parts[i]
  {
    if forall i :: 0 <= i < |parts| ==> c !in parts[i] {
      SplitPlain(parts[0], c);
      if |parts| > 1 {
        SplitJoin(parts[1..], c);
        SplitConcat(parts[0], c, Join(parts[1..], c));
      }
    } else {
      JoinSplit(Join(parts, c), c);
    }
  }

  lemma {:induction false} JoinAppend(parts: seq<string>, part: string, c: char)
    requires parts != []
    ensures Join(parts + [part], c) == Join(parts, c) + [c] + part
  {
    assert (parts + [part])[1..] == parts[1..] + [part];
    if |parts| > 1 {
      JoinAppend(parts[1..], part, c);
    } else {
      assert parts[1..] + [part] == [part];
    }
  }

  /** The first `k` fields, joined, are a prefix of the text. */
  lemma {:induction false} JoinPrefix(parts: seq<string>, k: nat, c: char)
    requires 1 <= k <= |parts|
    ensures Join(parts[..k], c) <= Join(parts, c)
  {
    if k > 1 {
      JoinPrefix(parts[1..], k - 1, c);
      assert parts[..k][1..] == parts[1..][..k - 1];
    }
  }

  // ----- replacement

  function Replace(s: string, pattern: string, with: string): string
    requires |pattern| > 0
    decreases |s|
  {
    if s == [] then []
    else if pattern <= s then with + Replace(s[|pattern|..], pattern, with)
    else [s[0]] + Replace(s[1..], pattern, with)
  }

  ghost predicate Occurs(pattern: string, s: string) {
    exists k :: 0 <= k <= |s| && pattern <= s[k..]
  }

  // ----- decimal numbers

  function Digit(d: nat): char
    requires d < 10
  {
    '0' + d as char
  }

  function Decimal(n: nat): string {
    if n < 10 then [Digit(n)] else Decimal(n / 10) + [Digit(n % 10)]
  }

  function ParseDecimal(s: string): Option<nat> {
    if s == [] then None
    else
      var last := s[|s| - 1];
      if !('0' <= last <= '9') then None
      else
        var d := last as int - '0' as int;
        if |s| == 1 then Some(d)
        else
          match ParseDecimal(s[..|s| - 1])
          case None => None
          case Some(n) => Some(10 * n + d)
  }

  /** A decimal number is one digit or more and nothing else; a further digit counts
      ten times what stands before it. */
  lemma {:induction false} DecimalMeaning(s: string, d: nat)
    requires d < 10
    ensures ParseDecimal(s).Some? <==> s != "" && forall i :: 0 <= i < |s| ==> '0' <= s[i] <= '9'
    ensures ParseDecimal(s + ['0' + d as char]) ==
            if s == "" then Some(d)
            else if ParseDecimal(s).Some? then Some(10 * ParseDecimal(s).value + d)
            else None
  {
    if |s| > 1 {
      DecimalMeaning(s[..|s| - 1], 0);
    }
    assert (s + ['0' + d as char])[..|s|] == s;
  }

  lemma {:induction false} DecimalRoundTrip(n: nat)
    ensures ParseDecimal(Decimal(n)) == Some(n)
    ensures forall ch :: ch in Decimal(n) ==> '0' <= ch <= '9'
  {
    if n >= 10 {
      DecimalRoundTrip(n / 10);
      var s := Decimal(n);
      assert s[..|s| - 1] == Decimal(n / 10);
    }
  }
}
