/** The two ways a form body becomes the four Dubbo arguments: parsed in the provider
    (`handle_request`), or parsed in the consumer, sent as lines and split in the
    provider (`session_consumer`). */
module RequestRoute {
  import opened Counting
  import opened Text

  const NUL: char := 0 as char
  const NEWLINE: char := '\n'
  const CHUNK: nat := 2048

  // ----- the type string

  const SLASH := "%2F"
  const SEMICOLON := "%3B"

  /** The decoding both parsers apply to the type string. */
  function DecodeTypes(s: string): string {
    Replace(Replace(s, SLASH, "/"), SEMICOLON, ";")
  }

  /** One pass from left to right over both patterns at once. */
  function DecodeAtOnce(s: string): string
    decreases |s|
  {
    if s == [] then []
    else if SLASH <= s then ['/'] + DecodeAtOnce(s[3..])
    else if SEMICOLON <= s then [';'] + DecodeAtOnce(s[3..])
    else [s[0]] + DecodeAtOnce(s[1..])
  }

  /** Apart from a replaced slash the first replacement copies character by character. */
  lemma FirstPassHead(s: string)
    requires s != [] && !(SLASH <= s)
    ensures Replace(s, SLASH, "/") == [s[0]] + Replace(s[1..], SLASH, "/")
  {
  }

  lemma FirstPassKeepsSemicolon(s: string)
    requires SEMICOLON <= s
    ensures Replace(s, SLASH, "/") == SEMICOLON + Replace(s[3..], SLASH, "/")
  {
    assert s[0] == '%' && s[1] == '3' && s[2] == 'B';
    FirstPassHead(s);
    FirstPassHead(s[1..]);
    FirstPassHead(s[1..][1..]);
    assert s[1..][1..][1..] == s[3..];
    assert "%" + ("3" + ("B" + Replace(s[3..], SLASH, "/"))) == SEMICOLON + Replace(s[3..], SLASH, "/");
  }

  /** An ordinary character at the front of the result was at the front of the text. */
  lemma FirstPassFront(s: string, c: char)
    requires c != '/' && c != '%'
    requires var r := Replace(s, SLASH, "/"); r != [] && r[0] == c
    ensures s != [] && s[0] == c && !(SLASH <= s)
  {
  }

  /** The first replacement creates no new semicolon pattern at the front. */
  lemma SemicolonComesFromText(s: string)
    requires s != [] && !(SLASH <= s) && SEMICOLON <= Replace(s, SLASH, "/")
    ensures SEMICOLON <= s
  {
    FirstPassHead(s);
    var r := Replace(s, SLASH, "/");
    assert r[0] == '%' && r[1] == '3' && r[2] == 'B';
    assert r[1..] == Replace(s[1..], SLASH, "/");
    FirstPassFront(s[1..], '3');
    FirstPassHead(s[1..]);
    assert r[2] == r[1..][1];
    FirstPassFront(s[1..][1..], 'B');
    assert s[..3] == SEMICOLON;
  }

  /** Two replacements in a row are one simultaneous decoding. */
  lemma {:induction false} SequentialIsSimultaneous(s: string)
    ensures DecodeTypes(s) == DecodeAtOnce(s)
    decreases |s|
  {
    if s == [] {
    } else if SLASH <= s {
      SequentialIsSimultaneous(s[3..]);
      var rest := Replace(s[3..], SLASH, "/");
      var r := "/" + rest;
      assert r[0] == '/' && r[1..] == rest;
      assert Replace(s, SLASH, "/") == r;
    } else if SEMICOLON <= s {
      SequentialIsSimultaneous(s[3..]);
      FirstPassKeepsSemicolon(s);
      var rest := Replace(s[3..], SLASH, "/");
      assert (SEMICOLON + rest)[3..] == rest;
    } else {
      SequentialIsSimultaneous(s[1..]);
      if SEMICOLON <= Replace(s, SLASH, "/") {
        SemicolonComesFromText(s);
      }
      FirstPassHead(s);
      var rest := Replace(s[1..], SLASH, "/");
      assert ([s[0]] + rest)[1..] == rest;
    }
  }

  /** Neither pattern stands anywhere in a decoded text. */
  ghost predicate Clean(s: string) {
    s == [] || (!(SLASH <= s) && !(SEMICOLON <= s) && Clean(s[1..]))
  }

  lemma {:induction false} DecodedFront(s: string, c: char)
    requires c != '/' && c != ';' && c != '%'
    requires DecodeAtOnce(s) != [] && DecodeAtOnce(s)[0] == c
    ensures s != [] && s[0] == c && DecodeAtOnce(s)[1..] == DecodeAtOnce(s[1..])
  {
  }

  lemma {:induction false} DecodedIsClean(s: string)
    ensures Clean(DecodeAtOnce(s))
    decreases |s|
  {
    if s == [] {
    } else if SLASH <= s {
      DecodedIsClean(s[3..]);
      var r := DecodeAtOnce(s);
      assert r[0] == '/' && r[1..] == DecodeAtOnce(s[3..]);
    } else if SEMICOLON <= s {
      DecodedIsClean(s[3..]);
      var r := DecodeAtOnce(s);
      assert r[0] == ';' && r[1..] == DecodeAtOnce(s[3..]);
    } else {
      DecodedIsClean(s[1..]);
      var rest := DecodeAtOnce(s[1..]);
      var r := [s[0]] + rest;
      assert r[1..] == rest;
      if SLASH <= r {
        PatternComesFromText(s, '2', 'F');
      }
      if SEMICOLON <= r {
        PatternComesFromText(s, '3', 'B');
      }
    }
  }

  lemma PatternComesFromText(s: string, a: char, b: char)
    requires s != [] && ['%', a, b] <= [s[0]] + DecodeAtOnce(s[1..])
    requires a != '/' && a != ';' && a != '%' && b != '/' && b != ';' && b != '%'
    ensures ['%', a, b] <= s
  {
    var rest := DecodeAtOnce(s[1..]);
    var r := [s[0]] + rest;
    assert r[0] == '%' && r[1] == a && r[2] == b;
    assert rest[0] == a && rest[1] == b;
    DecodedFront(s[1..], a);
    assert rest[1..][0] == b;
    DecodedFront(s[1..][1..], b);
    assert s[..3] == ['%', a, b];
  }

  /** Decoding a clean text changes nothing, so decoding twice is decoding once. */
  lemma {:induction false} CleanIsFixed(s: string)
    requires Clean(s)
    ensures DecodeAtOnce(s) == s
  {
    if s != [] {
      CleanIsFixed(s[1..]);
      assert [s[0]] + s[1..] == s;
    }
  }

  lemma {:induction false} CleanHasNoPattern(s: string)
    requires Clean(s)
    ensures !Occurs(SLASH, s) && !Occurs(SEMICOLON, s)
  {
    forall k | 0 <= k <= |s| ensures !(SLASH <= s[k..]) && !(SEMICOLON <= s[k..]) {
      if s != [] {
        CleanHasNoPattern(s[1..]);
        if k > 0 {
          assert s[1..][k - 1..] == s[k..];
          assert 0 <= k - 1 <= |s[1..]|;
        } else {
          assert s[0..] == s;
        }
      }
    }
  }

  /** Patterns overlap nothing, so what stands before one is decoded by itself. */
  lemma {:induction false} DecodesFront(before: string, rest: string)
    requires rest != [] && rest[0] == '%'
    ensures DecodeAtOnce(before + rest) == DecodeAtOnce(before) + DecodeAtOnce(rest)
    decreases |before|
  {
    if before == [] {
      assert before + rest == rest;
    } else {
      FrontPattern(before, rest);
      var used := if SLASH <= before || SEMICOLON <= before then 3 else 1;
      assert (before + rest)[used..] == before[used..] + rest;
      DecodesFront(before[used..], rest);
    }
  }

  /** A pattern at the front of a text is not made by joining a percent sign on. */
  lemma FrontPattern(before: string, rest: string)
    requires before != [] && rest != [] && rest[0] == '%'
    ensures SLASH <= before + rest <==> SLASH <= before
    ensures SEMICOLON <= before + rest <==> SEMICOLON <= before
    ensures (before + rest)[0] == before[0]
  {
    var s := before + rest;
    assert SLASH[0] == '%' && SLASH[1] == '2' && SLASH[2] == 'F';
    assert SEMICOLON[0] == '%' && SEMICOLON[1] == '3' && SEMICOLON[2] == 'B';
    assert s[|before|] == '%';
    if |before| >= 3 {
      assert s[..3] == before[..3];
    }
    if SLASH <= s || SEMICOLON <= s {
      assert s[1] != '%' && s[2] != '%';
    }
  }

  /** The decoding of the type string, wherever a pattern stands in it: each `%2F` is one
      slash and each `%3B` one semicolon, and a text without percent sign stays. One pass
      and two agree, no pattern is left, and decoding again changes nothing. */
  lemma TypeDecoding(s: string, rest: string)
    ensures DecodeTypes(s) == DecodeAtOnce(s)
    ensures DecodeTypes(s + "%2F" + rest) == DecodeTypes(s) + "/" + DecodeTypes(rest)
    ensures DecodeTypes(s + "%3B" + rest) == DecodeTypes(s) + ";" + DecodeTypes(rest)
    ensures '%' !in s ==> DecodeTypes(s) == s
    ensures !Occurs("%2F", DecodeTypes(s)) && !Occurs("%3B", DecodeTypes(s))
    ensures DecodeTypes(DecodeTypes(s)) == DecodeTypes(s)
  {
    SequentialIsSimultaneous(s);
    PatternDecodes(s, rest);
    DecodedIsClean(s);
    CleanHasNoPattern(DecodeTypes(s));
    CleanIsFixed(DecodeTypes(s));
    SequentialIsSimultaneous(DecodeTypes(s));
    if '%' !in s {
      NoPercentIsClean(s);
      CleanIsFixed(s);
    }
  }

  lemma PatternDecodes(s: string, rest: string)
    ensures DecodeTypes(s + "%2F" + rest) == DecodeTypes(s) + "/" + DecodeTypes(rest)
    ensures DecodeTypes(s + "%3B" + rest) == DecodeTypes(s) + ";" + DecodeTypes(rest)
  {
    SequentialIsSimultaneous(s);
    SequentialIsSimultaneous(rest);
    SequentialIsSimultaneous(s + "%2F" + rest);
    SequentialIsSimultaneous(s + "%3B" + rest);
    SlashDecodesAtOnce(s, rest);
    SemicolonDecodesAtOnce(s, rest);
  }

  lemma SlashDecodesAtOnce(s: string, rest: string)
    ensures DecodeAtOnce(s + "%2F" + rest) == DecodeAtOnce(s) + "/" + DecodeAtOnce(rest)
  {
    var slash := "%2F" + rest;
    assert slash[3..] == rest && s + slash == s + "%2F" + rest;
    DecodesFront(s, slash);
  }

  lemma SemicolonDecodesAtOnce(s: string, rest: string)
    ensures DecodeAtOnce(s + "%3B" + rest) == DecodeAtOnce(s) + ";" + DecodeAtOnce(rest)
  {
    var semicolon := "%3B" + rest;
    assert semicolon[3..] == rest && s + semicolon == s + "%3B" + rest;
    assert semicolon[1] == '3' && SLASH[1] == '2';
    DecodesFront(s, semicolon);
  }

  lemma {:induction false} NoPercentIsClean(s: string)
    requires '%' !in s
    ensures Clean(s)
  {
    if s != [] {
      assert SLASH[0] == '%' && SEMICOLON[0] == '%';
      assert s[0] in s;
      NoPercentIsClean(s[1..]);
    }
  }

  // ----- the form parser, the same in both agents

  /** The first position of `c`, or the length. */
  function Find(s: string, c: char): (k: nat)
    ensures k <= |s| && (k < |s| ==> s[k] == c)
    ensures forall i :: 0 <= i < k ==> s[i] != c
  {
    if s == [] || s[0] == c then 0 else Find(s[1..], c) + 1
  }

  /** A pair counts for a key when it has an equals sign and the key before the first. */
  predicate IsPair(kv: string, key: string) {
    var k := Find(kv, '=');
    k < |kv| && kv[..k] == key
  }

  /** The value of the last pair for a key, empty without one. */
  function LastValue(pairs: seq<string>, key: string): string {
    if pairs == [] then ""
    else
      var kv := pairs[|pairs| - 1];
      if IsPair(kv, key) then kv[Find(kv, '=') + 1..] else LastValue(pairs[..|pairs| - 1], key)
  }

  const KEYS: seq<string> := ["interface", "method", "parameterTypesString", "parameter"]

  /** The four arguments of a form body, unless one is missing or empty. */
  function FormArgs(text: string): Option<seq<string>> {
    var pairs := Split(text, '&');
    var args := [LastValue(pairs, KEYS[0]), LastValue(pairs, KEYS[1]),
                 DecodeTypes(LastValue(pairs, KEYS[2])), LastValue(pairs, KEYS[3])];
    if "" in args then None else Some(args)
  }

  function Pair(key: string, value: string): string {
    key + "=" + value
  }

  /** A pair is split at its first equals sign, so its value may hold others. */
  lemma PairReads(key: string, value: string, other: string)
    requires '=' !in key
    ensures IsPair(Pair(key, value), other) <==> other == key
    ensures Find(Pair(key, value), '=') == |key|
    ensures Pair(key, value)[|key| + 1..] == value
  {
    var kv := Pair(key, value);
    assert kv[|key|] == '=' && kv[..|key|] == key && kv[|key| + 1..] == value;
    assert forall i :: 0 <= i < |key| ==> kv[i] == key[i];
    assert Find(kv, '=') == |key|;
  }

  /** No key is another one, and none holds a separator. */
  lemma KeysApart()
    ensures forall i, j :: 0 <= i < j < 4 ==> KEYS[i] != KEYS[j]
    ensures forall i :: 0 <= i < 4 ==> '=' !in KEYS[i] && '&' !in KEYS[i]
    ensures "interface" != "method" && "interface" != "parameterTypesString" && "interface" != "parameter"
    ensures "method" != "parameterTypesString" && "method" != "parameter" && "parameterTypesString" != "parameter"
  {
    assert KEYS[0][0] == 'i' && KEYS[1][0] == 'm' && |KEYS[2]| > |KEYS[3]| && KEYS[2][0] == KEYS[3][0] == 'p';
  }

  /** The last pair with a key and an equals sign in front gives the value. */
  lemma {:induction false} LastPairCounts(pairs: seq<string>, key: string, k: nat, value: string)
    requires '=' !in key && k < |pairs| && pairs[k] == key + "=" + value
    requires forall j :: k < j < |pairs| ==> !(key + "=" <= pairs[j])
    ensures LastValue(pairs, key) == value
    decreases |pairs|
  {
    var last := |pairs| - 1;
    if k == last {
      PairReads(key, value, key);
    } else {
      PrefixIsPair(pairs[last], key);
      LastPairCounts(pairs[..last], key, k, value);
    }
  }

  lemma {:induction false} NoPairNoValue(pairs: seq<string>, key: string)
    requires '=' !in key && forall j :: 0 <= j < |pairs| ==> !(key + "=" <= pairs[j])
    ensures LastValue(pairs, key) == ""
    decreases |pairs|
  {
    if pairs != [] {
      PrefixIsPair(pairs[|pairs| - 1], key);
      NoPairNoValue(pairs[..|pairs| - 1], key);
    }
  }

  lemma PrefixIsPair(kv: string, key: string)
    requires '=' !in key
    ensures IsPair(kv, key) <==> key + "=" <= kv
  {
    if key + "=" <= kv {
      PairReads(key, kv[|key| + 1..], key);
      assert kv == Pair(key, kv[|key| + 1..]);
    }
    if IsPair(kv, key) {
      assert kv[..|key| + 1] == key + "=";
    }
  }

  /** Place `k` holds the last pair with this key. */
  ghost predicate LastWith(pairs: seq<string>, key: string, value: string, k: nat) {
    && k < |pairs| && pairs[k] == key + "=" + value
    && (forall j :: k < j < |pairs| ==> !(key + "=" <= pairs[j]))
  }

  lemma {:induction false} DecodedEmpty(s: string)
    ensures DecodeTypes(s) == "" <==> s == ""
  {
    SequentialIsSimultaneous(s);
  }

  /** A body of pairs is read by the last pair of each key, wherever it stands: interface,
      method, decoded parameter types, parameter. One of them empty fails the request. */
  lemma FormRoundTrip(pairs: seq<string>, v: seq<string>, at: seq<nat>)
    requires |v| == 4 && |at| == 4
    requires forall i :: 0 <= i < |pairs| ==> '&' !in pairs[i]
    requires LastWith(pairs, "interface", v[0], at[0])
    requires LastWith(pairs, "method", v[1], at[1])
    requires LastWith(pairs, "parameterTypesString", v[2], at[2])
    requires LastWith(pairs, "parameter", v[3], at[3])
    ensures FormArgs(Join(pairs, '&')) == if "" in v then None else Some([v[0], v[1], DecodeTypes(v[2]), v[3]])
  {
    assert |pairs| >= 1;
    SplitJoin(pairs, '&');
    KeysApart();
    LastPairCounts(pairs, "interface", at[0], v[0]);
    LastPairCounts(pairs, "method", at[1], v[1]);
    LastPairCounts(pairs, "parameterTypesString", at[2], v[2]);
    LastPairCounts(pairs, "parameter", at[3], v[3]);
    ArgsFromValues(Join(pairs, '&'), v);
  }

  lemma ArgsFromValues(text: string, v: seq<string>)
    requires |v| == 4
    requires LastValue(Split(text, '&'), "interface") == v[0]
    requires LastValue(Split(text, '&'), "method") == v[1]
    requires LastValue(Split(text, '&'), "parameterTypesString") == v[2]
    requires LastValue(Split(text, '&'), "parameter") == v[3]
    ensures FormArgs(text) == if "" in v then None else Some([v[0], v[1], DecodeTypes(v[2]), v[3]])
  {
    DecodedEmpty(v[2]);
    var args := [v[0], v[1], DecodeTypes(v[2]), v[3]];
    assert "" in args <==> v[0] == "" || v[1] == "" || v[2] == "" || v[3] == "";
    assert "" in v <==> v[0] == "" || v[1] == "" || v[2] == "" || v[3] == "";
    assert FormArgs(text) == if "" in args then None else Some(args);
  }

  /** A body without a pair for one of the four keys is refused. */
  lemma FormNeedsAll(text: string, key: string)
    requires key in ["interface", "method", "parameterTypesString", "parameter"]
    requires forall j :: 0 <= j < |Split(text, '&')| ==> !(key + "=" <= Split(text, '&')[j])
    ensures FormArgs(text) == None
  {
    KeysApart();
    NoPairNoValue(Split(text, '&'), key);
    DecodedEmpty("");
  }

  /** The four pairs as a client writes them. */
  function Four(v: seq<string>): seq<string>
    requires |v| == 4
  {
    ["interface=" + v[0], "method=" + v[1], "parameterTypesString=" + v[2], "parameter=" + v[3]]
  }

  /** Four pairs in any order, behind any others. */
  function Ordered(before: seq<string>, v: seq<string>, order: seq<nat>): (pairs: seq<string>)
    requires |v| == 4 && forall k :: 0 <= k < |order| ==> order[k] < 4
    ensures |pairs| == |before| + |order|
    ensures forall i :: 0 <= i < |before| ==> pairs[i] == before[i]
    ensures forall k :: 0 <= k < |order| ==> pairs[|before| + k] == Four(v)[order[k]]
  {
    before + seq(|order|, k requires 0 <= k < |order| => Four(v)[order[k]])
  }

  /** An order of four places has each of them somewhere. */
  lemma PlaceOf(order: seq<nat>, n: nat) returns (k: nat)
    requires |order| == 4 && Distinct(order) && n < 4
    requires forall k :: 0 <= k < 4 ==> order[k] < 4
    ensures k < 4 && order[k] == n
  {
    var a, b, c, d := order[0], order[1], order[2], order[3];
    assert a != b && a != c && a != d && b != c && b != d && c != d;
    k := if a == n then 0 else if b == n then 1 else if c == n then 2 else 3;
  }

  /** No pair of another key starts with this one and an equals sign. */
  lemma FourApart(v: seq<string>, n: nat, m: nat)
    requires |v| == 4 && n < 4 && m < 4 && n != m
    ensures !(KEYS[n] + "=" <= Four(v)[m])
  {
    KeysApart();
    assert Four(v)[m] == Pair(KEYS[m], v[m]);
    PairReads(KEYS[m], v[m], KEYS[n]);
    PrefixIsPair(Four(v)[m], KEYS[n]);
  }

  lemma LastInOrder(before: seq<string>, v: seq<string>, order: seq<nat>, n: nat) returns (k: nat)
    requires |v| == 4 && |order| == 4 && Distinct(order) && n < 4
    requires forall k :: 0 <= k < 4 ==> order[k] < 4
    ensures LastWith(Ordered(before, v, order), KEYS[n], v[n], k)
  {
    var p := PlaceOf(order, n);
    k := |before| + p;
    var pairs := Ordered(before, v, order);
    assert pairs[|before| + p] == Four(v)[n];
    forall j | k < j < |pairs| ensures !(KEYS[n] + "=" <= pairs[j]) {
      var m := order[j - |before|];
      assert pairs[|before| + (j - |before|)] == Four(v)[m];
      FourApart(v, n, m);
    }
  }

  /** The four pairs in any order, behind whatever pairs came before, are read back each
      under its own key. */
  lemma FormInAnyOrder(before: seq<string>, v: seq<string>, order: seq<nat>)
    requires |v| == 4 && |order| == 4 && Distinct(order) && forall k :: 0 <= k < 4 ==> order[k] < 4
    requires forall i :: 0 <= i < |before| ==> '&' !in before[i]
    requires forall i :: 0 <= i < 4 ==> '&' !in v[i]
    ensures FormArgs(Join(Ordered(before, v, order), '&')) ==
            if "" in v then None else Some([v[0], v[1], DecodeTypes(v[2]), v[3]])
  {
    var pairs := Ordered(before, v, order);
    var a := LastInOrder(before, v, order, 0);
    var b := LastInOrder(before, v, order, 1);
    var c := LastInOrder(before, v, order, 2);
    var d := LastInOrder(before, v, order, 3);
    forall i | 0 <= i < |pairs| ensures '&' !in pairs[i] {
      KeysApart();
      if i >= |before| {
        assert pairs[|before| + (i - |before|)] == Four(v)[order[i - |before|]];
      }
    }
    FormRoundTrip(pairs, v, [a, b, c, d]);
  }

  /** What one more pair does to the value of a key. */
  function Updated(value: string, key: string, kv: string): string {
    if IsPair(kv, key) then kv[Find(kv, '=') + 1..] else value
  }

  lemma LastValueStep(pairs: seq<string>, n: nat, key: string)
    requires n < |pairs|
    ensures LastValue(pairs[..n + 1], key) == Updated(LastValue(pairs[..n], key), key, pairs[n])
  {
    assert pairs[..n + 1][..n] == pairs[..n];
  }

  /** One pair: it sets the argument of its key, and without an equals sign or with
      another key changes nothing. */
  method TakePair(kv: string, args: array<string>)
    requires args.Length == 4
    modifies args
    ensures args[0] == Updated(old(args[0]), "interface", kv)
    ensures args[1] == Updated(old(args[1]), "method", kv)
    ensures args[2] == Updated(old(args[2]), "parameterTypesString", kv)
    ensures args[3] == Updated(old(args[3]), "parameter", kv)
  {
    KeysApart();
    var pos := Find(kv, '=');
    if pos == |kv| {
      return;
    }
    var key, val := kv[..pos], kv[pos + 1..];
    if key == "interface" {
      args[0] := val;
    } else if key == "method" {
      args[1] := val;
    } else if key == "parameterTypesString" {
      args[2] := val;
    } else if key == "parameter" {
      args[3] := val;
    }
  }

  /** The first loop: later pairs overwrite earlier ones. */
  method CollectPairs(pairs: seq<string>, args: array<string>)
    requires args.Length == 4
    requires forall i :: 0 <= i < 4 ==> args[i] == ""
    modifies args
    ensures args[0] == LastValue(pairs, "interface") && args[1] == LastValue(pairs, "method")
    ensures args[2] == LastValue(pairs, "parameterTypesString") && args[3] == LastValue(pairs, "parameter")
  {
    var n := 0;
    while n < |pairs|
      invariant n <= |pairs|
      invariant args[0] == LastValue(pairs[..n], "interface")
      invariant args[1] == LastValue(pairs[..n], "method")
      invariant args[2] == LastValue(pairs[..n], "parameterTypesString")
      invariant args[3] == LastValue(pairs[..n], "parameter")
    {
      TakePair(pairs[n], args);
      LastValueStep(pairs, n, "interface");
      LastValueStep(pairs, n, "method");
      LastValueStep(pairs, n, "parameterTypesString");
      LastValueStep(pairs, n, "parameter");
      n := n + 1;
    }
    assert pairs[..n] == pairs;
  }

  /** Later duplicates win, the type string is decoded, and an argument that is missing
      or empty fails the request. */
  method ParseForm(text: string) returns (r: Option<seq<string>>)
    ensures r == FormArgs(text)
    ensures var pairs := Split(text, '&');
            var args := [LastValue(pairs, "interface"), LastValue(pairs, "method"),
                         DecodeTypes(LastValue(pairs, "parameterTypesString")), LastValue(pairs, "parameter")];
            r == if "" in args then None else Some(args)
  {
    var args := new string[4](_ => "");
    CollectPairs(Split(text, '&'), args);
    args[2] := DecodeTypes(args[2]);
    ghost var all := args[..];
    assert all == [args[0], args[1], args[2], args[3]];
    var i := 0;
    while i < 4
      invariant i <= 4 && args[..] == all
      invariant forall k :: 0 <= k < i ==> args[k] != ""
    {
      if args[i] == "" {
        assert all[i] == "";
        return None;
      }
      i := i + 1;
    }
    r := Some(args[..]);
  }

  // ----- over the wire

  /** What the consumer writes. */
  function Line(args: seq<string>): string {
    Join(args, NEWLINE)
  }

  /** The buffer after one read into its zeroed bytes. */
  function Buffer(received: string): string
    requires |received| <= CHUNK
  {
    received + seq(CHUNK - |received|, _ => NUL)
  }

  /** The text of a C string, if it ends within its buffer. */
  function CString(buffer: string): Option<string> {
    var k := Find(buffer, NUL);
    if k < |buffer| then Some(buffer[..k]) else None
  }

  /** The four arguments the provider takes from its buffer; `None` where the code
      would read past the buffer or past the fields. */
  function ReceivedArgs(received: string): Option<seq<string>>
    requires |received| <= CHUNK
  {
    match CString(Buffer(received))
    case None => None
    case Some(text) =>
      var fields := Split(text, NEWLINE);
      if |fields| < 4 then None else Some(fields[..4])
  }

  lemma {:induction false} JoinHolds(parts: seq<string>, i: nat, c: char, x: char)
    requires i < |parts| && x in parts[i]
    ensures x in Join(parts, c)
  {
    if i > 0 {
      JoinHolds(parts[1..], i - 1, c, x);
    }
  }

  lemma {:induction false} JoinHoldsOnly(parts: seq<string>, c: char, x: char)
    requires x != c && forall i :: 0 <= i < |parts| ==> x !in parts[i]
    ensures x !in Join(parts, c)
  {
    if |parts| > 1 {
      JoinHoldsOnly(parts[1..], c, x);
    }
  }

  /** A text without a zero byte that leaves room for one is read back whole. */
  lemma WholeTextRead(text: string)
    requires NUL !in text && |text| < CHUNK
    ensures CString(Buffer(text)) == Some(text)
  {
    var b := Buffer(text);
    assert b[..|text|] == text && b[|text|] == NUL;
    assert forall i :: 0 <= i < |text| ==> b[i] == text[i];
  }

  /** What is read as a C string is a prefix of what was received, and holds no zero. */
  lemma ReadIsPrefix(received: string)
    requires |received| <= CHUNK && CString(Buffer(received)).Some?
    ensures var text := CString(Buffer(received)).value;
            text <= received && |text| < CHUNK && NUL !in text
  {
    var b := Buffer(received);
    var k := Find(b, NUL);
    if |received| < CHUNK {
      assert b[|received|] == NUL;
    }
    assert b[..k] == received[..k];
  }

  ghost predicate SafeArgs(args: seq<string>) {
    forall i :: 0 <= i < |args| ==> '\n' !in args[i] && 0 as char !in args[i]
  }

  lemma SafeLineArrives(args: seq<string>)
    requires |args| == 4 && SafeArgs(args) && |Line(args)| < CHUNK
    ensures ReceivedArgs(Line(args)) == Some(args)
  {
    JoinHoldsOnly(args, NEWLINE, NUL);
    WholeTextRead(Line(args));
    SplitJoin(args, NEWLINE);
    assert args[..4] == args;
  }

  lemma OnlySafeLinesArrive(args: seq<string>, got: nat)
    requires |args| == 4 && got <= |Line(args)| && got <= CHUNK
    requires ReceivedArgs(Line(args)[..got]) == Some(args)
    ensures got == |Line(args)| < CHUNK && SafeArgs(args)
  {
    var received := Line(args)[..got];
    ReadIsPrefix(received);
    var text := CString(Buffer(received)).value;
    var fields := Split(text, NEWLINE);
    JoinSplit(text, NEWLINE);
    JoinPrefix(fields, 4, NEWLINE);
    assert Line(args) <= text;
    assert text == Line(args);
    forall i | 0 <= i < 4 ensures NEWLINE !in args[i] && NUL !in args[i] {
      assert args[i] == fields[i];
      if NUL in args[i] {
        JoinHolds(args, i, NEWLINE, NUL);
      }
    }
  }

  lemma LineOfFour(args: seq<string>)
    requires |args| == 4
    ensures Line(args) == args[0] + "\n" + args[1] + "\n" + args[2] + "\n" + args[3]
  {
    assert args == [args[0], args[1], args[2], args[3]];
    assert Join(args[3..], '\n') == args[3];
    assert args[2..][1..] == args[3..] && Join(args[2..], '\n') == args[2] + "\n" + args[3];
    assert args[1..][1..] == args[2..] && Join(args[1..], '\n') == args[1] + "\n" + (args[2] + "\n" + args[3]);
  }

  /** What is read ends at the first zero byte; a full buffer without one has no end. */
  lemma ReadEndsAtZero(text: string, more: string)
    requires 0 as char !in text && |text| + |more| < 2048
    ensures CString(Buffer(text + [0 as char] + more)) == Some(text) == CString(Buffer(text))
    ensures |text| + |more| == 2047 && 0 as char !in more ==>
              forall c: char :: c != 0 as char ==> CString(Buffer(text + [c] + more)) == None
  {
    WholeTextRead(text);
    var received := text + [NUL] + more;
    var b := Buffer(received);
    assert b[..|text|] == text && b[|text|] == NUL;
    assert forall i :: 0 <= i < |text| ==> b[i] == text[i];
    if |text| + |more| == 2047 && NUL !in more {
      forall c: char | c != NUL ensures CString(Buffer(text + [c] + more)) == None {
        var full := text + [c] + more;
        assert Buffer(full) == full;
        assert forall i :: 0 <= i < |full| ==> full[i] in text || full[i] == c || full[i] in more;
      }
    }
  }

  /** The provider takes the first four lines, whatever stands behind them; with fewer it
      has no arguments. */
  lemma FirstFourLines(a: string, b: string, c: string, d: string, rest: string)
    requires var text := a + "\n" + (b + "\n" + (c + "\n" + (d + "\n" + rest)));
             0 as char !in text && |text| < 2048
    requires '\n' !in a && '\n' !in b && '\n' !in c && '\n' !in d
    ensures ReceivedArgs(a + "\n" + (b + "\n" + (c + "\n" + (d + "\n" + rest)))) == Some([a, b, c, d])
  {
    var t3 := d + "\n" + rest;
    var t2 := c + "\n" + t3;
    var t1 := b + "\n" + t2;
    WholeTextRead(a + "\n" + t1);
    LineFront(a, t1);
    LineFront(b, t2);
    LineFront(c, t3);
    LineFront(d, rest);
    assert Split(a + "\n" + t1, NEWLINE) == [a, b, c, d] + Split(rest, NEWLINE);
  }

  lemma LineFront(line: string, rest: string)
    requires '\n' !in line
    ensures Split(line + "\n" + rest, '\n') == [line] + Split(rest, '\n')
  {
    SplitConcat(line, '\n', rest);
    SplitPlain(line, '\n');
  }

  lemma TooFewLines(text: string)
    requires 0 as char !in text && |text| < 2048 && |Split(text, '\n')| < 4
    ensures ReceivedArgs(text) == None
  {
    WholeTextRead(text);
  }

  /** For every form body the parser accepts, whatever number of bytes the provider's
      one read delivers, the provider takes the same four arguments as the old route
      if and only if the whole line came, it is shorter than the buffer, and no
      argument holds a newline or a zero byte. */
  lemma RoutesAgree(body: string, got: nat)
    requires FormArgs(body).Some? && got <= |Line(FormArgs(body).value)| && got <= 2048
    ensures var args := FormArgs(body).value;
            ReceivedArgs(Line(args)[..got]) == FormArgs(body) <==>
            got == |Line(args)| < 2048 && SafeArgs(args)
    ensures var args := FormArgs(body).value;
            |args| == 4 && Line(args) == args[0] + "\n" + args[1] + "\n" + args[2] + "\n" + args[3]
  {
    var args := FormArgs(body).value;
    LineOfFour(args);
    if got == |Line(args)| < CHUNK && SafeArgs(args) {
      assert Line(args)[..got] == Line(args);
      SafeLineArrives(args);
    }
    if ReceivedArgs(Line(args)[..got]) == Some(args) {
      OnlySafeLinesArrive(args, got);
    }
  }

  /** The consumer reads the reply into a buffer of the same size and takes it for a C
      string. Whatever number of bytes its one read delivers, it forwards the reply if
      and only if the whole reply came, it is shorter than the buffer, and it holds no
      zero byte. */
  lemma ReplyArrives(reply: string, got: nat)
    requires got <= |reply| && got <= 2048
    ensures CString(Buffer(reply[..got])) == Some(reply) <==> got == |reply| < 2048 && 0 as char !in reply
  {
    if got == |reply| < CHUNK && NUL !in reply {
      assert reply[..got] == reply;
      WholeTextRead(reply);
    }
    if CString(Buffer(reply[..got])) == Some(reply) {
      ReadIsPrefix(reply[..got]);
    }
  }
}
