/** The text form of a tree, "1:hash,2:hash,...", and the splitter that takes it apart. */
module TreeText {
  import opened Hashes

  // ----- Splitting -----

  /** The length of the run before the first delimiter. */
  function FieldLength(s: string, d: char): (n: nat)
    ensures n <= |s|
    ensures n < |s| ==> s[n] == d
    ensures forall i :: 0 <= i < n ==> s[i] != d
  {
    if s == "" || s[0] == d then 0 else 1 + FieldLength(s[1..], d)
  }

  /** What strtok yields, call after call: the runs between delimiters that are not empty. */
  function Tokens(s: string, d: char): seq<string>
    decreases |s|
  {
    if s == "" then []
    else if s[0] == d then Tokens(s[1..], d)
    else [s[..FieldLength(s, d)]] + Tokens(s[FieldLength(s, d)..], d)
  }

  function Join(tokens: seq<string>, d: char): string {
    if tokens == [] then ""
    else if |tokens| == 1 then tokens[0]
    else tokens[0] + [d] + Join(tokens[1..], d)
  }

  predicate IsToken(t: string, d: char) {
    t != "" && d !in t
  }

  lemma {:induction false} FieldLengthOfToken(t: string, rest: string, d: char)
    requires d !in t && (rest == "" || rest[0] == d)
    ensures FieldLength(t + rest, d) == |t|
  {
    if t == "" {
      assert t + rest == rest;
    } else {
      assert (t + rest)[1..] == t[1..] + rest;
      FieldLengthOfToken(t[1..], rest, d);
    }
  }

  lemma FirstToken(t: string, rest: string, d: char)
    requires IsToken(t, d) && (rest == "" || rest[0] == d)
    ensures Tokens(t + rest, d) == [t] + Tokens(rest, d)
  {
    FieldLengthOfToken(t, rest, d);
    assert (t + rest)[0] == t[0] && t[0] in t;
    assert (t + rest)[..|t|] == t && (t + rest)[|t|..] == rest;
  }

  /** Splitting undoes joining. */
  lemma {:induction false} TokensOfJoin(tokens: seq<string>, d: char)
    requires forall i :: 0 <= i < |tokens| ==> IsToken(tokens[i], d)
    ensures Tokens(Join(tokens, d), d) == tokens
  {
    if |tokens| == 1 {
      FirstToken(tokens[0], "", d);
      assert tokens[0] + "" == tokens[0];
    } else if |tokens| > 1 {
      var rest := [d] + Join(tokens[1..], d);
      FirstToken(tokens[0], rest, d);
      assert tokens[0] + rest == Join(tokens, d);
      assert rest[1..] == Join(tokens[1..], d);
      TokensOfJoin(tokens[1..], d);
    }
  }

  // ----- The number of tokens that str_split expects -----

  function Delimiters(s: string, d: char): nat {
    if s == "" then 0 else (if s[0] == d then 1 else 0) + Delimiters(s[1..], d)
  }

  /** Delimiters with nothing before them; `inToken` says that the text before s ends in a token. */
  function EmptyFields(s: string, d: char, inToken: bool): nat {
    if s == "" then 0
    else if s[0] == d then (if inToken then 0 else 1) + EmptyFields(s[1..], d, false)
    else EmptyFields(s[1..], d, true)
  }

  predicate EndsInToken(s: string, d: char, inToken: bool) {
    if s == "" then inToken else s[|s| - 1] != d
  }

  lemma {:induction false} CountInsideToken(s: string, d: char)
    ensures |Tokens(s[FieldLength(s, d)..], d)| + 1 + EmptyFields(s, d, true)
            == Delimiters(s, d) + (if EndsInToken(s, d, true) then 1 else 0)
    decreases |s|, 1
  {
    if s != "" {
      if s[0] == d {
        CountTokens(s[1..], d);
        assert s[0..] == s;
        EndOfTail(s, d);
      } else {
        CountInsideToken(s[1..], d);
        assert s[FieldLength(s, d)..] == s[1..][FieldLength(s[1..], d)..];
      }
    }
  }

  lemma EndOfTail(s: string, d: char)
    requires s != "" && s[0] == d
    ensures EndsInToken(s, d, true) == EndsInToken(s, d, false) == EndsInToken(s[1..], d, false)
  {
  }

  lemma {:induction false} CountTokens(s: string, d: char)
    ensures |Tokens(s, d)| + EmptyFields(s, d, false)
            == Delimiters(s, d) + (if EndsInToken(s, d, false) then 1 else 0)
    decreases |s|, 0
  {
    if s != "" {
      if s[0] == d {
        CountTokens(s[1..], d);
        EndOfTail(s, d);
      } else {
        CountInsideToken(s[1..], d);
        assert s[FieldLength(s, d)..] == s[1..][FieldLength(s[1..], d)..];
      }
    }
  }

  /** The size that str_split computes; without any delimiter, or for the empty string, the test
      against the last one holds. */
  function ExpectedCount(s: string, d: char): nat {
    Delimiters(s, d) + (if s == "" || s[|s| - 1] != d then 1 else 0) + 1
  }

  /** The strings on which the assertions of str_split hold. */
  predicate Splittable(s: string, d: char) {
    s != "" && EmptyFields(s, d, false) == 0
  }

  /** str_split always has room for its tokens, and its last assertion holds exactly for a string that
      is not empty and has no delimiter with nothing before it. */
  lemma SplitAccounting(s: string, d: char)
    ensures |Tokens(s, d)| < ExpectedCount(s, d)
    ensures |Tokens(s, d)| == ExpectedCount(s, d) - 1 <==> Splittable(s, d)
  {
    CountTokens(s, d);
  }

  /** Joining undoes splitting, for a string without empty fields. */
  lemma {:induction false} JoinOfTokens(s: string, d: char)
    requires s != "" && EmptyFields(s, d, false) == 0 && s[|s| - 1] != d
    ensures Join(Tokens(s, d), d) == s
    decreases |s|
  {
    hide EmptyFields;
    hide Tokens;
    hide Join;
    StartsWithToken(s, d);
    var n := FieldLength(s, d);
    assert s == s[..n] + s[n..];
    if n < |s| {
      var more := s[n + 1..];
      assert s == s[..n] + [d] + more;
      assert more[|more| - 1] == s[|s| - 1];
      JoinOfTokens(more, d);
      JoinFirst(s[..n], Tokens(more, d), d);
    } else {
      assert s[..n] == s;
      JoinFirst(s, [], d);
    }
  }

  /** What a string without empty fields starts with, and what comes after the delimiter. */
  lemma StartsWithToken(s: string, d: char)
    requires s != "" && EmptyFields(s, d, false) == 0 && s[|s| - 1] != d
    ensures
      var n := FieldLength(s, d);
      && 0 < n
      && Tokens(s, d) == [s[..n]] + (if n < |s| then Tokens(s[n + 1..], d) else [])
      && (n < |s| ==> n + 1 < |s| && EmptyFields(s[n + 1..], d, false) == 0 && Tokens(s[n + 1..], d) != [])
  {
    var n := FieldLength(s, d);
    var rest := s[n..];
    assert s[0] != d;
    assert Tokens(s, d) == [s[..n]] + Tokens(rest, d);
    SkipToken(s, d, n);
    if n < |s| {
      assert rest[1..] == s[n + 1..];
      assert s[n + 1..][|s| - n - 2] == s[|s| - 1];
    } else {
      assert rest == "";
    }
  }

  lemma JoinFirst(t: string, tokens: seq<string>, d: char)
    ensures Join([t] + tokens, d) == if tokens == [] then t else t + [d] + Join(tokens, d)
  {
    assert ([t] + tokens)[1..] == tokens;
  }

  lemma {:induction false} SkipToken(s: string, d: char, n: nat)
    requires n <= FieldLength(s, d)
    ensures EmptyFields(s, d, true) == EmptyFields(s[n..], d, true)
    ensures n > 0 ==> EmptyFields(s, d, false) == EmptyFields(s[n..], d, true)
  {
    if n > 0 {
      SkipToken(s[1..], d, n - 1);
      assert s[1..][n - 1..] == s[n..];
    }
  }

  // ----- The text of a tree -----

  function DecimalDigit(n: nat): (c: char)
    requires n < 10
    ensures '0' <= c <= '9'
  {
    '0' + n as char
  }

  /** "%d" */
  function Decimal(n: nat): (s: string)
    ensures s != "" && forall i :: 0 <= i < |s| ==> '0' <= s[i] <= '9'
  {
    if n < 10 then [DecimalDigit(n)] else Decimal(n / 10) + [DecimalDigit(n % 10)]
  }

  /** Reads a number, as atoi does. */
  function Value(s: string): int {
    if s == "" then 0 else 10 * Value(s[..|s| - 1]) + (s[|s| - 1] as int - '0' as int)
  }

  lemma {:induction false} DecimalReadsBack(n: nat)
    ensures Value(Decimal(n)) == n
    ensures |Decimal(n)| > 1 ==> Decimal(n)[0] != '0'
  {
    if n >= 10 {
      DecimalReadsBack(n / 10);
      assert Decimal(n)[..|Decimal(n)| - 1] == Decimal(n / 10);
      if n < 100 {
        assert Decimal(n / 10) == [DecimalDigit(n / 10)];
      }
    }
  }

  function Entry(i: nat, hash: Hash): string {
    Decimal(i) + ":" + hash
  }

  /** The hashes are those of the nodes 1, 2, ... */
  function Entries(hashes: seq<Hash>): (r: seq<string>)
    ensures |r| == |hashes|
  {
    seq(|hashes|, k requires 0 <= k < |hashes| => Entry(k + 1, hashes[k]))
  }

  function Text(hashes: seq<Hash>): string {
    Join(Entries(hashes), ',')
  }

  lemma {:induction false} DelimitersOfRun(t: string, rest: string, d: char)
    requires d !in t
    ensures Delimiters(t + rest, d) == Delimiters(rest, d)
  {
    if t == "" {
      assert t + rest == rest;
    } else {
      assert (t + rest)[1..] == t[1..] + rest;
      DelimitersOfRun(t[1..], rest, d);
    }
  }

  lemma {:induction false} DelimitersOfJoin(tokens: seq<string>, d: char)
    requires tokens != [] && forall i :: 0 <= i < |tokens| ==> IsToken(tokens[i], d)
    ensures Delimiters(Join(tokens, d), d) == |tokens| - 1
    ensures Join(tokens, d) != "" && Join(tokens, d)[|Join(tokens, d)| - 1] != d
  {
    if |tokens| == 1 {
      DelimitersOfRun(tokens[0], "", d);
      assert tokens[0] + "" == tokens[0];
    } else {
      DelimitersOfJoin(tokens[1..], d);
      var rest := [d] + Join(tokens[1..], d);
      DelimitersOfRun(tokens[0], rest, d);
      assert rest[1..] == Join(tokens[1..], d);
      assert tokens[0] + rest == Join(tokens, d);
    }
  }

  /** str_split does not abort on joined tokens. */
  lemma JoinHasNoEmptyFields(tokens: seq<string>, d: char)
    requires tokens != [] && forall i :: 0 <= i < |tokens| ==> IsToken(tokens[i], d)
    ensures Join(tokens, d) != "" && EmptyFields(Join(tokens, d), d, false) == 0
  {
    DelimitersOfJoin(tokens, d);
    TokensOfJoin(tokens, d);
    CountTokens(Join(tokens, d), d);
  }

  lemma EntryIsAToken(i: nat, hash: Hash)
    ensures IsToken(Entry(i, hash), ',')
    ensures Tokens(Entry(i, hash), ':') == [Decimal(i), hash]
    ensures Entry(i, hash) != "" && EmptyFields(Entry(i, hash), ':', false) == 0
  {
    hide Tokens;
    hide EmptyFields;
    hide Decimal;
    var parts := [Decimal(i), hash];
    TokensOfJoin(parts, ':');
    JoinHasNoEmptyFields(parts, ':');
    assert Join(parts, ':') == Entry(i, hash) by {
      assert Join(parts[1..], ':') == hash;
    }
  }

  /** Parsing the text gives the entries back, and each entry its hash. */
  lemma TextRoundTrip(hashes: seq<Hash>)
    ensures Tokens(Text(hashes), ',') == Entries(hashes)
    ensures forall k :: 0 <= k < |hashes| ==> Tokens(Entries(hashes)[k], ':') == [Decimal(k + 1), hashes[k]]
    ensures forall k :: 0 <= k < |hashes| ==> Value(Tokens(Entries(hashes)[k], ':')[0]) == k + 1
    ensures forall k :: 0 <= k < |hashes| ==> Splittable(Entries(hashes)[k], ':')
    ensures hashes != [] ==> Splittable(Text(hashes), ',')
  {
    hide Tokens;
    hide EmptyFields;
    hide Entry;
    hide Value;
    forall k | 0 <= k < |hashes|
      ensures IsToken(Entries(hashes)[k], ',') && Tokens(Entries(hashes)[k], ':') == [Decimal(k + 1), hashes[k]]
      ensures Value(Tokens(Entries(hashes)[k], ':')[0]) == k + 1 && Splittable(Entries(hashes)[k], ':')
    {
      EntryIsAToken(k + 1, hashes[k]);
      DecimalReadsBack(k + 1);
    }
    TokensOfJoin(Entries(hashes), ',');
    if hashes != [] {
      JoinHasNoEmptyFields(Entries(hashes), ',');
    }
  }

  /** Different trees have different texts. */
  lemma TextIsInjective(a: seq<Hash>, b: seq<Hash>)
    requires Text(a) == Text(b)
    ensures a == b
  {
    TextRoundTrip(a);
    TextRoundTrip(b);
    assert |Entries(a)| == |Entries(b)|;
    forall k | 0 <= k < |a|
      ensures a[k] == b[k]
    {
      assert Tokens(Entries(a)[k], ':') == [Decimal(k + 1), a[k]];
      assert Tokens(Entries(b)[k], ':') == [Decimal(k + 1), b[k]];
    }
  }

  lemma {:induction false} JoinSnoc(tokens: seq<string>, t: string, d: char)
    requires tokens != []
    ensures Join(tokens + [t], d) == Join(tokens, d) + [d] + t
  {
    if |tokens| > 1 {
      assert (tokens + [t])[1..] == tokens[1..] + [t];
      JoinSnoc(tokens[1..], t, d);
    }
  }
}
