/**
  The portable fallback of `normalize_path`: two passes over the characters, in place, shown to be
  a stack machine over the components of the path.
*/
module NormalizePath {

  const SEP := '/'
  const DOT := '.'

  // ---------------------------------------------------------------- what the loops compute

  predicate DoubleSep(s: string) { |s| > 1 && s[0] == SEP && s[1] == SEP }

  predicate DotDir(s: string) { |s| > 2 && s[0] == SEP && s[1] == DOT && s[2] == SEP }

  predicate DotDotDir(s: string) { |s| > 3 && s[0] == SEP && s[1] == DOT && s[2] == DOT && s[3] == SEP }

  /** First pass: `//` becomes `/` and `/./` becomes `/`. */
  function Collapse(s: string): (r: string)
    ensures |r| <= |s|
  {
    if s == "" then ""
    else if DoubleSep(s) then Collapse(s[1..])
    else if DotDir(s) then Collapse(s[2..])
    else [s[0]] + Collapse(s[1..])
  }

  /** Drop the characters behind the last separator, then that separator. */
  function Pop(stack: string): (r: string)
    ensures |r| <= |stack|
  {
    if stack == "" then ""
    else if stack[|stack| - 1] == SEP then stack[..|stack| - 1]
    else Pop(stack[..|stack| - 1])
  }

  /** Second pass: push characters, pop a directory at `/../`. */
  function Resolve(stack: string, s: string): (r: string)
    ensures |r| <= |stack| + |s|
    decreases |s|
  {
    if s == "" then stack
    else if DotDotDir(s) then Resolve(Pop(stack), s[3..])
    else Resolve(stack + [s[0]], s[1..])
  }

  function Normal(s: string): string {
    Resolve("", Collapse(s))
  }

  // ---------------------------------------------------------------- the loops

  lemma CollapseStep(s: string, i: nat)
    requires i < |s|
    ensures Collapse(s[i..]) ==
            if i + 1 < |s| && s[i] == SEP && s[i + 1] == SEP then Collapse(s[i + 1..])
            else if i + 2 < |s| && s[i] == SEP && s[i + 1] == DOT && s[i + 2] == SEP then Collapse(s[i + 2..])
            else [s[i]] + Collapse(s[i + 1..])
  {
    var t := s[i..];
    assert t[1..] == s[i + 1..];
    if DotDir(t) {
      assert t[2..] == s[i + 2..];
    }
  }

  /** The first loop, which writes the result over the front of the same string. */
  method CollapseInPlace(path: array<char>, n: nat) returns (m: nat)
    requires n < path.Length && path[n] == '\0'
    modifies path
    ensures m <= n && path[..m] == Collapse(old(path[..n])) && path[m] == '\0'
  {
    hide Collapse;
    ghost var s := path[..n];
    assert s[0..] == s;
    var i, out := 0, 0;
    while i < n
      invariant 0 <= out <= i <= n && path[n] == '\0'
      invariant forall k :: i <= k < n ==> path[k] == s[k]
      invariant path[..out] + Collapse(s[i..]) == Collapse(s)
    {
      CollapseStep(s, i);
      if path[i] == SEP && path[i + 1] == SEP {
        assert i + 1 < n;
      } else if i + 2 <= n && path[i] == SEP && path[i + 1] == DOT && path[i + 2] == SEP {
        i := i + 1;
      } else {
        Regroup(path[..out], s[i], Collapse(s[i + 1..]));
        path[out] := path[i];
        assert path[..out + 1] == path[..out] + [s[i]];
        out := out + 1;
      }
      i := i + 1;
    }
    path[out] := '\0';
    m := out;
    assert Collapse(s[n..]) == "" && path[..m] + "" == path[..m];
  }

  lemma Regroup(a: string, x: char, b: string)
    ensures a + ([x] + b) == a + [x] + b
  {
  }

  lemma ResolveStep(stack: string, s: string, i: nat)
    requires i < |s|
    ensures Resolve(stack, s[i..]) ==
            if i + 3 < |s| && s[i] == SEP && s[i + 1] == DOT && s[i + 2] == DOT && s[i + 3] == SEP
            then Resolve(Pop(stack), s[i + 3..])
            else Resolve(stack + [s[i]], s[i + 1..])
  {
    var t := s[i..];
    assert t[1..] == s[i + 1..];
    if DotDotDir(t) {
      assert t[3..] == s[i + 3..];
    }
  }

  /** The inner loop of the second pass and the removal of the separator below it. */
  method PopDirectory(stack: array<char>, top: nat) returns (below: nat)
    requires top <= stack.Length
    modifies stack
    ensures below <= top && stack[..below] == Pop(old(stack[..top]))
  {
    below := top;
    while below > 0 && stack[below - 1] != SEP
      invariant 0 <= below <= top
      invariant stack[..below] == old(stack[..below])
      invariant Pop(old(stack[..top])) == Pop(old(stack[..below]))
    {
      assert old(stack[..below])[..below - 1] == old(stack[..below - 1]);
      below := below - 1;
      stack[below] := '\0';
    }
    if below > 0 {
      assert old(stack[..below])[..below - 1] == old(stack[..below - 1]);
      below := below - 1;
      stack[below] := '\0';
    }
  }

  /** The second loop and the copy back; the path has no terminator before `n`. */
  method ResolveInPlace(path: array<char>, n: nat) returns (m: nat)
    requires n < path.Length && path[n] == '\0'
    modifies path
    ensures m <= n && path[..m] == Resolve("", old(path[..n])) && path[m] == '\0'
  {
    hide Resolve, Pop;
    ghost var s := path[..n];
    assert s[0..] == s;
    var stack := new char[n + 1];
    var i, top := 0, 0;
    assert stack[..0] == "";
    while i < n
      invariant 0 <= top <= i <= n && path[..n] == s && path[n] == '\0'
      invariant Resolve(stack[..top], s[i..]) == Resolve("", s)
    {
      ResolveStep(stack[..top], s, i);
      assert forall k :: 0 <= k < n ==> path[k] == s[k];
      if i + 3 <= n && path[i] == SEP && path[i + 1] == DOT && path[i + 2] == DOT && path[i + 3] == SEP {
        top := PopDirectory(stack, top);
        i := i + 2;
      } else {
        stack[top] := path[i];
        assert stack[..top + 1] == stack[..top] + [s[i]];
        top := top + 1;
      }
      i := i + 1;
    }
    assert s[n..] == "";
    EndOfPath(stack[..top]);
    stack[top] := '\0';
    CopyBack(stack, path, top);
    m := top;
  }

  method CopyBack(from: array<char>, to: array<char>, n: nat)
    requires n < from.Length && n < to.Length && from != to
    modifies to
    ensures to[..n] == from[..n] && to[n] == '\0'
  {
    for k := 0 to n
      invariant forall j :: 0 <= j < k ==> to[j] == from[j]
    {
      to[k] := from[k];
    }
    to[n] := '\0';
  }

  lemma EndOfPath(stack: string)
    ensures Resolve(stack, "") == stack
  {
  }

  /** `normalize_path` without `realpath`, on a terminated string; the path never grows. */
  method Normalize(path: array<char>, n: nat) returns (m: nat)
    requires n < path.Length && path[n] == '\0'
    modifies path
    ensures m <= n && path[..m] == Normal(old(path[..n])) && path[m] == '\0'
  {
    m := CollapseInPlace(path, n);
    m := ResolveInPlace(path, m);
  }

  // ---------------------------------------------------------------- components

  predicate Word(w: string) {
    forall i :: 0 <= i < |w| ==> w[i] != SEP
  }

  predicate Words(ws: seq<string>) {
    forall i :: 0 <= i < |ws| ==> Word(ws[i])
  }

  /** Each directory with the separator before it. */
  function Dirs(ws: seq<string>): string {
    if ws == [] then "" else [SEP] + ws[0] + Dirs(ws[1..])
  }

  /** The inner components and the last one, each with the separator before it. */
  function Tail(inner: seq<string>, last: string): (t: string)
    ensures t != "" && t[0] == SEP
  {
    if inner == [] then [SEP] + last else [SEP] + (inner[0] + Tail(inner[1..], last))
  }

  /** A path with a separator: what precedes the first one, the inner components, the last one. */
  function Join(lead: string, inner: seq<string>, last: string): string {
    lead + Tail(inner, last)
  }

  lemma {:induction false} DirsTail(ws: seq<string>, last: string)
    ensures Dirs(ws) + [SEP] + last == Tail(ws, last)
    decreases |ws|
  {
    if ws == [] {
      assert "" + [SEP] + last == [SEP] + last;
    } else {
      var d := Dirs(ws[1..]);
      DirsTail(ws[1..], last);
      assert [SEP] + ws[0] + d + [SEP] + last == [SEP] + (ws[0] + (d + [SEP] + last));
    }
  }

  lemma TailCons(w: string, inner: seq<string>, last: string)
    ensures Tail([w] + inner, last) == [SEP] + (w + Tail(inner, last))
  {
    assert ([w] + inner)[1..] == inner;
  }

  /** Every string with a separator is such a path. */
  lemma {:induction false} Split(s: string) returns (lead: string, inner: seq<string>, last: string)
    requires !Word(s)
    ensures Word(lead) && Words(inner) && Word(last) && s == Join(lead, inner, last)
    decreases |s|
  {
    var rest := s[1..];
    assert s == [s[0]] + rest;
    if s[0] == SEP {
      lead := "";
      if Word(rest) {
        inner, last := [], rest;
      } else {
        var first, more;
        first, more, last := Split(rest);
        inner := [first] + more;
        TailCons(first, more, last);
      }
      assert Join("", inner, last) == Tail(inner, last);
    } else {
      LaterSeparator(s);
      var first;
      first, inner, last := Split(rest);
      lead := [s[0]] + first;
      assert [s[0]] + (first + Tail(inner, last)) == lead + Tail(inner, last);
    }
  }

  lemma LaterSeparator(s: string)
    requires !Word(s) && s[0] != SEP
    ensures !Word(s[1..])
  {
    var i :| 0 <= i < |s| && s[i] == SEP;
    assert s[1..][i - 1] == SEP;
  }

  // ---------------------------------------------------------------- the stack machine

  datatype State = State(lead: string, dirs: seq<string>)

  /** Empty and `.` components are dropped; `..` pops, and below the first directory it drops what precedes it. */
  function Move(s: State, w: string): State {
    if w == "" || w == "." then s
    else if w == ".." then
      if s.dirs == [] then State("", []) else s.(dirs := s.dirs[..|s.dirs| - 1])
    else s.(dirs := s.dirs + [w])
  }

  function Run(s: State, ws: seq<string>): State
    decreases |ws|
  {
    if ws == [] then s else Run(Move(s, ws[0]), ws[1..])
  }

  function Text(s: State): string {
    s.lead + Dirs(s.dirs)
  }

  function Kept(ws: seq<string>): seq<string> {
    if ws == [] then []
    else (if ws[0] == "" || ws[0] == "." then [] else [ws[0]]) + Kept(ws[1..])
  }

  lemma {:induction false} KeptRuns(s: State, ws: seq<string>)
    ensures Run(s, Kept(ws)) == Run(s, ws)
    decreases |ws|
  {
    if ws != [] {
      KeptRuns(Move(s, ws[0]), ws[1..]);
      if ws[0] != "" && ws[0] != "." {
        assert Kept(ws)[0] == ws[0] && Kept(ws)[1..] == Kept(ws[1..]);
      } else {
        assert Kept(ws) == Kept(ws[1..]);
      }
    }
  }

  lemma {:induction false} KeptWords(ws: seq<string>)
    requires Words(ws)
    ensures Words(Kept(ws)) && forall i :: 0 <= i < |Kept(ws)| ==> Kept(ws)[i] != "" && Kept(ws)[i] != "."
  {
    if ws != [] {
      KeptWords(ws[1..]);
    }
  }

  // ---------------------------------------------------------------- first pass, by components

  lemma {:induction false} CollapseWord(w: string, t: string)
    requires Word(w)
    ensures Collapse(w + t) == w + Collapse(t)
    decreases |w|
  {
    if w == "" {
      assert w + t == t;
    } else {
      CollapseWord(w[1..], t);
      assert (w + t)[1..] == w[1..] + t;
      assert w + Collapse(t) == [w[0]] + (w[1..] + Collapse(t));
    }
  }

  /** A separator and a component that stays. */
  lemma CollapseDir(w: string, t: string)
    requires Word(w) && (t == "" || (t[0] == SEP && w != "" && w != "."))
    ensures Collapse([SEP] + (w + t)) == [SEP] + (w + Collapse(t))
  {
    var rest := w + t;
    var s := [SEP] + rest;
    assert s[1..] == rest;
    assert !DoubleSep(s) && !DotDir(s) by {
      assert |w| > 0 ==> rest[0] == w[0];
      assert |w| > 1 ==> rest[1] == w[1];
    }
    hide Word;
    CollapseWord(w, t);
  }

  lemma CollapseSkips(w: string, t: string)
    requires (w == "" || w == ".") && t != "" && t[0] == SEP
    ensures Collapse([SEP] + (w + t)) == Collapse(t)
  {
    var s := [SEP] + (w + t);
    if w == "" {
      assert w + t == t && s[1..] == t;
    } else {
      assert s[2..] == t && DotDir(s);
    }
  }

  lemma {:induction false} CollapseTail(inner: seq<string>, last: string)
    requires Words(inner) && Word(last)
    ensures Collapse(Tail(inner, last)) == Tail(Kept(inner), last)
    decreases |inner|
  {
    hide Collapse, Word;
    if inner == [] {
      CollapseDir(last, "");
      EmptyPath(last);
    } else {
      var w, rest := inner[0], inner[1..];
      CollapseTail(rest, last);
      if w == "" || w == "." {
        CollapseSkips(w, Tail(rest, last));
        assert [] + Kept(rest) == Kept(rest);
      } else {
        CollapseDir(w, Tail(rest, last));
        TailCons(w, Kept(rest), last);
      }
    }
  }

  lemma EmptyPath(last: string)
    ensures Collapse("") == "" && last + "" == last
  {
  }

  lemma CollapseIsKept(lead: string, inner: seq<string>, last: string)
    requires Word(lead) && Words(inner) && Word(last)
    ensures Collapse(Join(lead, inner, last)) == Join(lead, Kept(inner), last)
  {
    hide Collapse, Kept, Tail, Word, Words;
    CollapseWord(lead, Tail(inner, last));
    CollapseTail(inner, last);
  }

  // ---------------------------------------------------------------- second pass, by components

  lemma {:induction false} ResolveWord(stack: string, w: string, t: string)
    requires Word(w)
    ensures Resolve(stack, w + t) == Resolve(stack + w, t)
    decreases |w|
  {
    if w == "" {
      assert w + t == t && stack + w == stack;
    } else {
      ResolveWord(stack + [w[0]], w[1..], t);
      assert (w + t)[1..] == w[1..] + t;
      assert stack + [w[0]] + w[1..] == stack + w;
    }
  }

  lemma ResolveDir(stack: string, w: string, t: string)
    requires Word(w) && (t == "" || (t[0] == SEP && w != ".."))
    ensures Resolve(stack, [SEP] + (w + t)) == Resolve(stack + [SEP] + w, t)
  {
    var rest := w + t;
    var s := [SEP] + rest;
    assert s[1..] == rest;
    assert !DotDotDir(s) by {
      assert |w| > 0 ==> rest[0] == w[0];
      assert |w| > 1 ==> rest[1] == w[1];
      assert |w| > 2 ==> rest[2] == w[2];
    }
    hide Word;
    ResolveWord(stack + [SEP], w, t);
  }

  lemma {:induction false} PopWord(stack: string, w: string)
    requires Word(w)
    ensures Pop(stack + [SEP] + w) == stack
    decreases |w|
  {
    var s := stack + [SEP] + w;
    if w == "" {
      assert s[..|s| - 1] == stack;
    } else {
      assert s[|s| - 1] == w[|w| - 1] && s[..|s| - 1] == stack + [SEP] + w[..|w| - 1];
      PopWord(stack, w[..|w| - 1]);
    }
  }

  lemma {:induction false} PopLead(w: string)
    requires Word(w)
    ensures Pop(w) == ""
    decreases |w|
  {
    if w != "" {
      PopLead(w[..|w| - 1]);
    }
  }

  lemma {:induction false} DirsSnoc(ws: seq<string>, w: string)
    ensures Dirs(ws + [w]) == Dirs(ws) + [SEP] + w
    decreases |ws|
  {
    if ws == [] {
      assert ws + [w] == [w] && [w][1..] == [];
      assert [SEP] + w + "" == "" + [SEP] + w;
    } else {
      DirsSnoc(ws[1..], w);
      assert (ws + [w])[1..] == ws[1..] + [w];
      assert [SEP] + ws[0] + (Dirs(ws[1..]) + [SEP] + w) == [SEP] + ws[0] + Dirs(ws[1..]) + [SEP] + w;
    }
  }

  lemma PopText(s: State)
    requires Word(s.lead) && Words(s.dirs)
    ensures Pop(Text(s)) == Text(Move(s, ".."))
  {
    if s.dirs == [] {
      assert Text(s) == s.lead;
      PopLead(s.lead);
      assert Text(State("", [])) == "";
    } else {
      var front, w := s.dirs[..|s.dirs| - 1], s.dirs[|s.dirs| - 1];
      assert s.dirs == front + [w];
      DirsSnoc(front, w);
      assert Text(s) == s.lead + Dirs(front) + [SEP] + w;
      PopWord(s.lead + Dirs(front), w);
    }
  }

  lemma ResolvePops(stack: string, t: string)
    requires t != "" && t[0] == SEP
    ensures Resolve(stack, [SEP] + (".." + t)) == Resolve(Pop(stack), t)
  {
    var s := [SEP] + (".." + t);
    assert s[3..] == t && DotDotDir(s);
  }

  lemma PushText(s: State, w: string)
    requires w != "" && w != "." && w != ".."
    ensures Text(Move(s, w)) == Text(s) + [SEP] + w
  {
    DirsSnoc(s.dirs, w);
  }

  lemma {:induction false} ResolveRuns(s: State, inner: seq<string>, last: string)
    requires Word(s.lead) && Words(s.dirs) && Words(inner) && Word(last)
    requires forall i :: 0 <= i < |inner| ==> inner[i] != "" && inner[i] != "."
    ensures Resolve(Text(s), Tail(inner, last)) == Text(Run(s, inner)) + [SEP] + last
    decreases |inner|
  {
    hide Resolve, Text, Word;
    if inner == [] {
      ResolveDir(Text(s), last, "");
      EndOfPath(Text(s) + [SEP] + last);
      EmptyPath(last);
    } else {
      var w, rest := inner[0], inner[1..];
      if w == ".." {
        ResolvePops(Text(s), Tail(rest, last));
        PopText(s);
        MoveWords(s, w);
        ResolveRuns(Move(s, w), rest, last);
      } else {
        ResolveDir(Text(s), w, Tail(rest, last));
        PushText(s, w);
        MoveWords(s, w);
        ResolveRuns(Move(s, w), rest, last);
      }
    }
  }

  lemma MoveWords(s: State, w: string)
    requires Word(s.lead) && Words(s.dirs) && Word(w)
    ensures Word(Move(s, w).lead) && Words(Move(s, w).dirs)
  {
  }

  // ---------------------------------------------------------------- results

  /** Both passes together are the stack machine on the inner components; the last one stays as it is. */
  lemma NormalIsStackMachine(lead: string, inner: seq<string>, last: string)
    requires Word(lead) && Words(inner) && Word(last)
    ensures var s := Run(State(lead, []), inner); Normal(Join(lead, inner, last)) == Join(s.lead, s.dirs, last)
  {
    hide Collapse, Resolve, Run, Kept, Word, Tail;
    CollapseIsKept(lead, inner, last);
    KeptWords(inner);
    KeptRuns(State(lead, []), inner);
    ResolveWord("", lead, Tail(Kept(inner), last));
    assert "" + lead == lead == Text(State(lead, []));
    ResolveRuns(State(lead, []), Kept(inner), last);
    var s := Run(State(lead, []), inner);
    DirsTail(s.dirs, last);
    assert Text(s) + [SEP] + last == s.lead + (Dirs(s.dirs) + [SEP] + last);
  }

  /** A path without a separator is left alone. */
  lemma WordIsNormal(s: string)
    requires Word(s)
    ensures Normal(s) == s
  {
    CollapseWord(s, "");
    ResolveWord("", s, "");
    EndOfPath("" + s);
    assert s + "" == s && "" + s == s;
  }

  predicate Clean(ws: seq<string>) {
    Words(ws) && forall i :: 0 <= i < |ws| ==> ws[i] != "" && ws[i] != "." && ws[i] != ".."
  }

  lemma {:induction false} RunIsClean(s: State, ws: seq<string>)
    requires Word(s.lead) && Clean(s.dirs) && Words(ws)
    ensures Word(Run(s, ws).lead) && Clean(Run(s, ws).dirs)
    decreases |ws|
  {
    if ws != [] {
      RunIsClean(Move(s, ws[0]), ws[1..]);
    }
  }

  lemma {:induction false} CleanRuns(s: State, ws: seq<string>)
    requires Clean(ws)
    ensures Run(s, ws) == s.(dirs := s.dirs + ws)
    decreases |ws|
  {
    if ws == [] {
      assert s.dirs + ws == s.dirs;
    } else {
      CleanRuns(Move(s, ws[0]), ws[1..]);
      assert s.dirs + [ws[0]] + ws[1..] == s.dirs + ws;
    }
  }

  /** Normalizing again changes nothing. */
  lemma NormalIsIdempotent(path: string)
    ensures Normal(Normal(path)) == Normal(path)
  {
    if Word(path) {
      WordIsNormal(path);
    } else {
      var lead, inner, last := Split(path);
      NormalIsStackMachine(lead, inner, last);
      var s := Run(State(lead, []), inner);
      RunIsClean(State(lead, []), inner);
      NormalIsStackMachine(s.lead, s.dirs, last);
      CleanRuns(State(s.lead, []), s.dirs);
      assert [] + s.dirs == s.dirs;
    }
  }

  /** Some `..` stands where no directory is left to remove. */
  predicate Underflows(depth: nat, ws: seq<string>)
    decreases |ws|
  {
    ws != [] &&
    (if ws[0] == "" || ws[0] == "." then Underflows(depth, ws[1..])
     else if ws[0] == ".." then depth == 0 || Underflows(depth - 1, ws[1..])
     else Underflows(depth + 1, ws[1..]))
  }

  lemma {:induction false} RunKeepsLead(s: State, ws: seq<string>)
    ensures Run(s, ws).lead == if Underflows(|s.dirs|, ws) then "" else s.lead
    decreases |ws|
  {
    if ws != [] {
      RunKeepsLead(Move(s, ws[0]), ws[1..]);
      if ws[0] == ".." && s.dirs == [] {
        LeadStaysEmpty([], ws[1..]);
      }
    }
  }

  lemma {:induction false} LeadStaysEmpty(dirs: seq<string>, ws: seq<string>)
    ensures Run(State("", dirs), ws).lead == ""
    decreases |ws|
  {
    if ws != [] {
      LeadStaysEmpty(Move(State("", dirs), ws[0]).dirs, ws[1..]);
    }
  }

  predicate Absolute(path: string) { path != "" && path[0] == SEP }

  /**
    An absolute path stays absolute.  A relative one stays relative exactly when no `..` underflows:
    otherwise its first component is dropped and the separator behind it is kept.
  */
  lemma AbsoluteAfterwards(lead: string, inner: seq<string>, last: string)
    requires Word(lead) && Words(inner) && Word(last)
    ensures Absolute(Normal(Join(lead, inner, last))) <==> lead == "" || Underflows(0, inner)
  {
    NormalIsStackMachine(lead, inner, last);
    RunKeepsLead(State(lead, []), inner);
    RunIsClean(State(lead, []), inner);
    var s := Run(State(lead, []), inner);
    var path := Join(s.lead, s.dirs, last);
    assert path[0] == if s.lead == "" then SEP else s.lead[0];
  }

  /** `a/../b` becomes `/b`. */
  lemma RelativeBecomesAbsolute()
    ensures Normal("a/../b") == "/b"
  {
    assert Tail([".."], "b") == "/" + (".." + Tail([], "b"));
    assert Join("a", [".."], "b") == "a/../b";
    NormalIsStackMachine("a", [".."], "b");
    assert Run(State("a", []), [".."]) == Run(State("", []), []) == State("", []);
    assert Join("", [], "b") == "/b";
  }
}
