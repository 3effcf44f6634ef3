/**
  The layer filters of the environment: how a comma-separated list of names with stars is taken apart,
  and which layer names it matches.
*/
module Filters {

  const MAX_NAME: nat := 256
  const MAX_FILTERS: nat := 16

  datatype Kind = FullName | Substring | Prefix | Suffix | Special

  datatype Filter = Filter(kind: Kind, value: string)

  function Lower(c: char): char {
    if 'A' <= c <= 'Z' then c + 32 as char else c
  }

  function LowerAll(s: string): (r: string)
    ensures |r| == |s| && forall i :: 0 <= i < |s| ==> r[i] == Lower(s[i])
    ensures forall c <- r :: !('A' <= c <= 'Z')
  {
    seq(|s|, i requires 0 <= i < |s| => Lower(s[i]))
  }

  const Capitals := "ABCDEFGHIJKLMNOPQRSTUVWXYZ"
  const SmallOnes := "abcdefghijklmnopqrstuvwxyz"

  /** Capitals become the small letters, and nothing else changes. */
  lemma LowerIs(k: nat, c: char)
    ensures k < 26 ==> Lower(Capitals[k]) == SmallOnes[k]
    ensures !('A' <= c <= 'Z') ==> Lower(c) == c
  {
  }

  /** The same but for the case of the letters A to Z. */
  ghost predicate SameButCase(s: string, t: string) {
    |s| == |t| && forall i :: 0 <= i < |s| ==> s[i] == t[i] || Cases(s[i], t[i]) || Cases(t[i], s[i])
  }

  ghost predicate Cases(capital: char, small: char) {
    exists k :: 0 <= k < 26 && capital == Capitals[k] && small == SmallOnes[k]
  }

  lemma SameLower(s: string, t: string)
    requires SameButCase(s, t)
    ensures LowerAll(s) == LowerAll(t)
  {
    hide Lower, Cases;
    forall i | 0 <= i < |s| ensures Lower(s[i]) == Lower(t[i]) {
      if Cases(s[i], t[i]) {
        CasesLower(s[i], t[i]);
      } else if Cases(t[i], s[i]) {
        CasesLower(t[i], s[i]);
      }
    }
  }

  lemma CasesLower(c: char, d: char)
    requires Cases(c, d)
    ensures Lower(c) == Lower(d)
  {
    var k :| 0 <= k < 26 && c == Capitals[k] && d == SmallOnes[k];
    LowerIs(k, d);
    assert !('A' <= d <= 'Z');
  }

  // ---------------------------------------------------------------- what a token stands for

  /** A token without a star at its start and at its end. */
  function Core(token: string): string {
    var s := if token != [] && token[0] == '*' then token[1..] else token;
    if s != [] && s[|s| - 1] == '*' then s[..|s| - 1] else s
  }

  /** What the documentation promises: a star at either end stands for any text, and case does not matter. */
  ghost predicate Means(token: string, name: string)
    requires token != []
  {
    exists a: string, b: string :: Split(LowerAll(name), a, Core(token), b)
      && (token[0] != '*' ==> a == []) && (token[|token| - 1] != '*' ==> b == [])
  }

  ghost predicate Split(s: string, a: string, core: string, b: string) {
    s == a + core + b
  }

  // ---------------------------------------------------------------- what the code does

  /** The outcome of `determine_filter_type`. */
  function Classify(token: string): (f: Filter)
    requires token != []
    ensures |f.value| <= |token|
  {
    var begin, end := token[0] == '*' && |token| != 1, token[|token| - 1] == '*' && |token| != 2;
    if token[0] == '~' then Filter(Special, token)
    else if begin && end then Filter(Substring, token[1..|token| - 1])
    else if begin then Filter(Suffix, token[1..])
    else if end then Filter(Prefix, token[..|token| - 1])
    else Filter(FullName, token)
  }

  /** `determine_filter_type`: the special type of a lone star or of two is overwritten further down. */
  method DetermineFilterType(token: string) returns (kind: Kind, start: nat, length: nat)
    requires token != []
    ensures start + length <= |token|
    ensures Filter(kind, token[start..start + length]) == Classify(token)
  {
    var n := |token|;
    var begin, end := false, false;
    kind, start, length := FullName, 0, 0;
    if token[0] == '~' {
      kind, start, length := Special, 0, n;
    } else {
      if token[0] == '*' {
        if n == 1 {
          kind, start, length := Special, 0, n;
        } else {
          begin := true;
        }
      }
      if token[n - 1] == '*' {
        if n == 2 {
          kind, start, length := Special, 0, n;
        } else {
          end := true;
        }
      }
      if begin && end {
        kind, start, length := Substring, 1, n - 2;
      } else if begin {
        start, length, kind := 1, n - 1, Suffix;
      } else if end {
        kind, start, length := Prefix, 0, n - 1;
      } else {
        kind, start, length := FullName, 0, n;
      }
    }
  }

  /** What fits the fixed buffer of a filter. */
  function Stored(f: Filter): Filter {
    if |f.value| < MAX_NAME - 1 then f else f.(value := f.value[..MAX_NAME - 1])
  }

  ghost predicate IsAt(name: string, start: int, value: string) {
    0 <= start <= start + |value| <= |name| && LowerAll(name[start..start + |value|]) == value
  }

  /** When one filter matches. */
  ghost predicate Matches(f: Filter, name: string) {
    && |f.value| <= |name|
    && match f.kind
       case Special => f.value == "~all~" || f.value == "*" || f.value == "**"
       case Substring => exists start :: IsAt(name, start, f.value)
       case Suffix => IsAt(name, |name| - |f.value|, f.value)
       case Prefix => IsAt(name, 0, f.value)
       case FullName => |name| == |f.value| && IsAt(name, 0, f.value)
  }

  /** `name_segment_matches_filter_value`. */
  method SegmentMatches(name: string, start: nat, value: string) returns (ok: bool)
    requires start + |value| <= |name|
    ensures ok == IsAt(name, start, value)
  {
    var i := 0;
    while i < |value|
      invariant i <= |value| && forall k :: 0 <= k < i ==> Lower(name[start + k]) == value[k]
    {
      if Lower(name[start + i]) != value[i] {
        assert LowerAll(name[start..start + |value|])[i] != value[i];
        return false;
      }
      i := i + 1;
    }
    return true;
  }

  method OneMatches(name: string, f: Filter) returns (ok: bool)
    ensures ok == Matches(f, name)
  {
    if |f.value| > |name| {
      return false;
    }
    ok := false;
    match f.kind
    case Special =>
      ok := f.value == "~all~" || f.value == "*" || f.value == "**";
    case Substring =>
      var start := 0;
      while start + |f.value| <= |name|
        invariant start + |f.value| <= |name| + 1 && forall k :: 0 <= k < start ==> !IsAt(name, k, f.value)
      {
        ok := SegmentMatches(name, start, f.value);
        if ok {
          return;
        }
        start := start + 1;
      }
      ok := false;
    case Suffix =>
      ok := SegmentMatches(name, |name| - |f.value|, f.value);
    case Prefix =>
      ok := SegmentMatches(name, 0, f.value);
    case FullName =>
      if |name| == |f.value| {
        ok := SegmentMatches(name, 0, f.value);
      }
  }

  /** `check_name_matches_filter_environment_var`: some filter matches. */
  method CheckName(name: string, filters: seq<Filter>) returns (ok: bool)
    ensures ok <==> exists f :: f in filters && Matches(f, name)
  {
    hide Matches;
    var i := 0;
    while i < |filters|
      invariant i <= |filters| && forall k :: 0 <= k < i ==> !Matches(filters[k], name)
    {
      ok := OneMatches(name, filters[i]);
      if ok {
        assert filters[i] in filters;
        return;
      }
      i := i + 1;
    }
    ok := false;
  }

  // ---------------------------------------------------------------- the two compared

  lemma SplitIsAt(name: string, a: string, core: string, b: string)
    requires Split(LowerAll(name), a, core, b)
    ensures IsAt(name, |a|, core) && |name| == |a| + |core| + |b|
  {
    var s := LowerAll(name);
    forall i | 0 <= i < |core| ensures LowerAll(name[|a|..|a| + |core|])[i] == core[i] {
      assert s[|a| + i] == core[i];
    }
  }

  lemma IsAtSplit(name: string, start: nat, core: string) returns (a: string, b: string)
    requires IsAt(name, start, core)
    ensures Split(LowerAll(name), a, core, b) && |a| == start && |b| == |name| - start - |core|
  {
    var s := LowerAll(name);
    a, b := s[..start], s[start + |core|..];
    forall i | 0 <= i < |s| ensures s[i] == (a + core + b)[i] {
      if start <= i < start + |core| {
        assert core[i - start] == LowerAll(name[start..start + |core|])[i - start];
      }
    }
  }

  /** What the documentation promises, by positions. */
  lemma MeansByPosition(token: string, name: string)
    requires token != []
    ensures Means(token, name) <==> exists start ::
      && IsAt(name, start, Core(token))
      && (token[0] != '*' ==> start == 0) && (token[|token| - 1] != '*' ==> start + |Core(token)| == |name|)
  {
    if Means(token, name) {
      var a: string, b: string :| Split(LowerAll(name), a, Core(token), b)
        && (token[0] != '*' ==> a == []) && (token[|token| - 1] != '*' ==> b == []);
      SplitIsAt(name, a, Core(token), b);
    }
    forall start | (
      && IsAt(name, start, Core(token))
      && (token[0] != '*' ==> start == 0) && (token[|token| - 1] != '*' ==> start + |Core(token)| == |name|))
      ensures Means(token, name)
    {
      var a, b := IsAtSplit(name, start, Core(token));
    }
  }

  /** A token of two characters that ends in a star is the one that goes wrong. */
  ghost predicate Stubby(token: string) {
    |token| == 2 && token[1] == '*'
  }

  lemma ClassifyStrips(token: string)
    requires token != [] && token[0] != '~' && !Stubby(token)
    ensures Classify(token).value == Core(token)
    ensures
      var begin, end := token[0] == '*', token[|token| - 1] == '*';
      Classify(token).kind == if |token| == 1 && begin then Prefix
        else if begin && end then Substring else if begin then Suffix else if end then Prefix else FullName
  {
  }

  lemma AgreesUnlessStubby(token: string, name: string)
    requires token != [] && token[0] != '~' && !Stubby(token) && |Core(token)| < MAX_NAME
    ensures Matches(Stored(Classify(token)), name) <==> Means(token, name)
  {
    ClassifyStrips(token);
    MeansByPosition(token, name);
    var core := Core(token);
    assert Stored(Classify(token)) == Classify(token);
    if |token| == 1 && token[0] == '*' {
      assert name[0..0] == [];
      assert IsAt(name, 0, core);
    }
    hide Means, Classify, Core, Stored;
    if IsAt(name, |name| - |core|, core) {
      assert |name| - |core| + |core| == |name|;
    }
  }

  /**
    A filter that is not special does what the documentation promises, on every name, if and only if it
    is not one character and a star: that is taken for a full name, and two stars for a suffix.
  */
  lemma FilterIsAsDocumentedIff(token: string)
    requires token != [] && token[0] != '~' && LowerAll(token) == token && |Core(token)| < 256
    ensures (forall name :: Matches(Stored(Classify(token)), name) <==> Means(token, name)) <==> !Stubby(token)
  {
    if Stubby(token) {
      var name := Core(token);
      assert !Matches(Stored(Classify(token)), name);
      assert LowerAll(name) == name;
      assert Split(LowerAll(name), [], name, []);
      assert Means(token, name);
    } else {
      forall name ensures Matches(Stored(Classify(token)), name) <==> Means(token, name) {
        AgreesUnlessStubby(token, name);
      }
    }
  }

  /** `~all~` does not match a name shorter than itself, because lengths are compared first. */
  lemma AllMatchesIff(name: string)
    ensures Matches(Stored(Classify("~all~")), name) <==> |name| >= 5
  {
    assert Classify("~all~") == Filter(Special, "~all~");
  }

  // ---------------------------------------------------------------- a whole variable

  /** The end of the run of commas, or of other characters, that starts at `i`. */
  function RunOf(s: string, i: nat, commas: bool): (j: nat)
    requires i <= |s|
    ensures i <= j <= |s| && (forall k :: i <= k < j ==> (s[k] == ',') == commas)
    ensures j < |s| ==> (s[j] == ',') != commas
    decreases |s| - i
  {
    if i < |s| && (s[i] == ',') == commas then RunOf(s, i + 1, commas) else i
  }

  /** What `strtok` takes out of a string from `i` on: the nonempty pieces between commas. */
  function Tokens(s: string, i: nat): (r: seq<string>)
    requires i <= |s|
    ensures forall k :: 0 <= k < |r| ==> r[k] != [] && ',' !in r[k]
    decreases |s| - i
  {
    var start := RunOf(s, i, true);
    var end := RunOf(s, start, false);
    if start == |s| then [] else [s[start..end]] + Tokens(s, end)
  }

  /** The pieces with commas between them. */
  function Listed(pieces: seq<string>): string {
    if pieces == [] then "" else if |pieces| == 1 then pieces[0] else pieces[0] + "," + Listed(pieces[1..])
  }

  lemma {:induction false} RunEndsAt(s: string, i: nat, j: nat, commas: bool)
    requires i <= j <= |s| && (forall k :: i <= k < j ==> (s[k] == ',') == commas)
    requires j < |s| ==> (s[j] == ',') != commas
    ensures RunOf(s, i, commas) == j
    decreases j - i
  {
    if i < j {
      RunEndsAt(s, i + 1, j, commas);
    }
  }

  ghost predicate Pieces(pieces: seq<string>) {
    forall k :: 0 <= k < |pieces| ==> pieces[k] != "" && ',' !in pieces[k]
  }

  /** A list of nonempty names without commas is taken apart into these names. */
  lemma TokensOfList(pieces: seq<string>)
    requires Pieces(pieces)
    ensures Tokens(Listed(pieces), 0) == pieces
  {
    assert Listed(pieces)[0..] == Listed(pieces);
    TokensFrom(Listed(pieces), 0, pieces);
  }

  lemma ListedParts(pieces: seq<string>)
    requires pieces != []
    ensures var more := (if pieces[1..] != [] then "," else "") + Listed(pieces[1..]);
            Listed(pieces) == pieces[0] + more && (more != "" ==> more[0] == ',')
  {
  }

  lemma PiecesSplit(pieces: seq<string>)
    requires Pieces(pieces) && pieces != []
    ensures pieces[0] != "" && ',' !in pieces[0] && Pieces(pieces[1..]) && pieces == [pieces[0]] + pieces[1..]
  {
  }

  /** The comma in front of the list, if it is not the first thing in the string. */
  lemma CommaStands(s: string, i: nat, start: nat, rest: string)
    requires i <= |s| && s[i..] == (if i > 0 then "," else "") + rest && start == (if i > 0 then i + 1 else i)
    ensures start <= |s| && s[start..] == rest && (i < start ==> s[i] == ',')
  {
    var tail := s[i..];
    assert i < start ==> tail[0] == s[i];
    assert s[start..] == tail[start - i..];
  }

  lemma PieceStands(s: string, start: nat, piece: string, more: string)
    requires start <= |s| && s[start..] == piece + more
    ensures start + |piece| <= |s| && s[start..start + |piece|] == piece && s[start + |piece|..] == more
  {
    var tail := s[start..];
    assert tail[..|piece|] == piece && tail[|piece|..] == more;
    assert s[start..start + |piece|] == tail[..|piece|] && s[start + |piece|..] == tail[|piece|..];
  }

  lemma PieceHasNoComma(s: string, start: nat, end: nat)
    requires start <= end <= |s| && ',' !in s[start..end]
    ensures forall k :: start <= k < end ==> s[k] != ','
  {
    forall k | start <= k < end ensures s[k] != ',' {
      assert s[k] == s[start..end][k - start];
    }
  }

  lemma {:induction false} TokensFrom(s: string, i: nat, pieces: seq<string>)
    requires i <= |s| && Pieces(pieces)
    requires s[i..] == (if i > 0 && pieces != [] then "," else "") + Listed(pieces)
    ensures Tokens(s, i) == pieces
    decreases |pieces|
  {
    if pieces == [] {
      RunEndsAt(s, i, i, true);
    } else {
      hide Listed, Tokens, RunOf;
      var piece, rest := pieces[0], pieces[1..];
      PiecesSplit(pieces);
      ListedParts(pieces);
      hide Pieces;
      var start := if i > 0 then i + 1 else i;
      var more := (if rest != [] then "," else "") + Listed(rest);
      var end := start + |piece|;
      CommaStands(s, i, start, Listed(pieces));
      PieceStands(s, start, piece, more);
      PieceHasNoComma(s, start, end);
      assert end < |s| ==> s[end] == s[end..][0] == more[0];
      RunEndsAt(s, i, start, true);
      RunEndsAt(s, start, end, false);
      TokensFrom(s, end, rest);
      TokensStep(s, i, start, end);
      assert Tokens(s, i) == [Tokens(s, i)[0]] + Tokens(s, i)[1..];
    }
  }

  /** One call of `strtok`. */
  method NextToken(s: string, i: nat) returns (start: nat, end: nat)
    requires i <= |s|
    ensures start == RunOf(s, i, true) && end == RunOf(s, start, false)
  {
    start := i;
    while start < |s| && s[start] == ','
      invariant i <= start <= |s| && RunOf(s, start, true) == RunOf(s, i, true)
    {
      start := start + 1;
    }
    end := start;
    while end < |s| && s[end] != ','
      invariant start <= end <= |s| && RunOf(s, end, false) == RunOf(s, start, false)
    {
      end := end + 1;
    }
  }

  function FilterOf(token: string): Filter
    requires token != []
  {
    Stored(Classify(token))
  }

  lemma NoTokens(s: string, i: nat)
    requires i <= |s| && RunOf(s, i, true) == |s|
    ensures Tokens(s, i) == []
  {
  }

  lemma TokensStep(s: string, i: nat, start: nat, end: nat)
    requires i <= |s| && start == RunOf(s, i, true) < |s| && end == RunOf(s, start, false)
    ensures start < end <= |s| && Tokens(s, i) != []
    ensures Tokens(s, i)[0] == s[start..end] && Tokens(s, i)[1..] == Tokens(s, end)
  {
  }

  /** What is stored for one token. */
  method MakeFilter(token: string) returns (f: Filter)
    requires token != []
    ensures f == FilterOf(token) && f.kind == Classify(token).kind
    ensures f.value <= Classify(token).value
    ensures |f.value| == if |Classify(token).value| < 255 then |Classify(token).value| else 255
  {
    hide Classify;
    var kind, from, length := DetermineFilterType(token);
    var stored := if length < MAX_NAME - 1 then length else MAX_NAME - 1;
    assert token[from..from + length][..stored] == token[from..from + stored];
    f := Filter(kind, token[from..from + stored]);
  }

  /** `parse_generic_filter_environment_var` on the value of the variable: the first tokens, as far as there is room. */
  method ParseFilters(value: string) returns (filters: seq<Filter>)
    ensures
      var tokens := Tokens(LowerAll(value), 0);
      && |filters| == (if |tokens| < 16 then |tokens| else 16)
      && forall k :: 0 <= k < |filters| ==> filters[k] == FilterOf(tokens[k])
  {
    hide FilterOf, Tokens, RunOf;
    var s := LowerAll(value);
    ghost var tokens := Tokens(s, 0);
    filters := [];
    var i := 0;
    assert tokens == tokens[0..];
    while |filters| < MAX_FILTERS
      invariant i <= |s| && |filters| <= |tokens| && |filters| <= MAX_FILTERS && Tokens(s, i) == tokens[|filters|..]
      invariant forall k :: 0 <= k < |filters| ==> filters[k] == FilterOf(tokens[k])
      decreases MAX_FILTERS - |filters|
    {
      var start, end := NextToken(s, i);
      if start == |s| {
        NoTokens(s, i);
        break;
      }
      TokensStep(s, i, start, end);
      var filter := MakeFilter(s[start..end]);
      assert Tokens(s, i)[0] == tokens[|filters|] && Tokens(s, i)[1..] == tokens[|filters| + 1..];
      filters := filters + [filter];
      i := end;
    }
  }

  /** A token that is not special, not stubby, and short enough to be stored. */
  ghost predicate Ordinary(token: string) {
    token != [] && token[0] != '~' && !Stubby(token) && |Core(token)| < 256
  }

  /** What a token matches: what its stars promise if it is ordinary, and what is stored for it otherwise. */
  ghost predicate TokenMatches(token: string, name: string)
    requires token != []
  {
    if Ordinary(token) then Means(token, name) else Matches(FilterOf(token), name)
  }

  lemma SegmentCase(name: string, other: string, start: int, value: string)
    requires SameButCase(name, other)
    ensures IsAt(name, start, value) <==> IsAt(other, start, value)
  {
    if 0 <= start <= start + |value| <= |name| {
      SameLower(name[start..start + |value|], other[start..start + |value|]);
    }
  }

  lemma MatchesCase(f: Filter, name: string, other: string)
    requires SameButCase(name, other)
    ensures Matches(f, name) <==> Matches(f, other)
  {
    forall start ensures IsAt(name, start, f.value) <==> IsAt(other, start, f.value) {
      SegmentCase(name, other, start, f.value);
    }
    hide IsAt;
  }

  /** Case matters neither in the names nor in the variable. */
  lemma CaseDoesNotMatter(name: string, other: string, value: string, again: string)
    requires SameButCase(name, other) && SameButCase(value, again)
    ensures Tokens(LowerAll(value), 0) == Tokens(LowerAll(again), 0)
    ensures forall token: string | token != [] :: TokenMatches(token, name) <==> TokenMatches(token, other)
  {
    SameLower(value, again);
    SameLower(name, other);
    forall token: string | token != [] ensures TokenMatches(token, name) <==> TokenMatches(token, other) {
      MatchesCase(FilterOf(token), name, other);
    }
  }

  /** The variable and the matching together: one of the first tokens matches the name. */
  method NameMatchesVariable(name: string, value: string) returns (ok: bool)
    ensures
      var tokens := Tokens(LowerAll(value), 0);
      ok <==> exists k :: 0 <= k < |tokens| && k < 16 && TokenMatches(tokens[k], name)
  {
    hide Matches, Means, Classify;
    ghost var tokens := Tokens(LowerAll(value), 0);
    var filters := ParseFilters(value);
    ok := CheckName(name, filters);
    forall k | 0 <= k < |filters| ensures Matches(filters[k], name) <==> TokenMatches(tokens[k], name) {
      if Ordinary(tokens[k]) {
        AgreesUnlessStubby(tokens[k], name);
      }
    }
    if ok {
      ghost var f :| f in filters && Matches(f, name);
      ghost var k :| 0 <= k < |filters| && filters[k] == f;
      assert TokenMatches(tokens[k], name);
    }
  }
}
