/**
  collapse_path and handle_relative_path of src/syscall/syscall_helpers.c, and the working
  directory kept by src/syscall/fs/cwd.c.
 */
module PathNormalise {
  import opened Common

  const PATH_MAX := 4096

  // ---- components and the stack they are resolved on ----

  function CompLen(s: string): (k: nat)
    ensures k <= |s| && (forall i :: 0 <= i < k ==> s[i] != '/') && (k < |s| ==> s[k] == '/')
  {
    if s == "" || s[0] == '/' then 0 else 1 + CompLen(s[1..])
  }

  /** The non-empty pieces between slashes. */
  function Components(s: string): seq<string>
    decreases |s|
  {
    if s == "" then []
    else if s[0] == '/' then Components(s[1..])
    else [s[..CompLen(s)]] + Components(s[CompLen(s)..])
  }

  /** "." stays, ".." goes up (the root absorbs it), anything else goes down. */
  function Push(stack: seq<string>, c: string): seq<string> {
    if c == "." then stack
    else if c == ".." then (if stack == [] then [] else stack[..|stack| - 1])
    else stack + [c]
  }

  function Resolve(stack: seq<string>, comps: seq<string>): seq<string>
    decreases |comps|
  {
    if comps == [] then stack else Resolve(Push(stack, comps[0]), comps[1..])
  }

  function Joined(stack: seq<string>): string {
    if stack == [] then "" else Joined(stack[..|stack| - 1]) + "/" + stack[|stack| - 1]
  }

  function Rendered(stack: seq<string>): string {
    if stack == [] then "/" else Joined(stack)
  }

  /** What a path means: its components resolved from the root. */
  function Normal(path: string): string {
    Rendered(Resolve([], Components(path)))
  }

  predicate Absolute(path: string) {
    path != "" && path[0] == '/'
  }

  // ---- laws ----

  ghost predicate Plain(c: string) {
    c != "" && c != "." && c != ".." && forall i :: 0 <= i < |c| ==> c[i] != '/'
  }

  ghost predicate AllPlain(stack: seq<string>) {
    forall i :: 0 <= i < |stack| ==> Plain(stack[i])
  }

  ghost predicate AllPieces(comps: seq<string>) {
    forall i :: 0 <= i < |comps| ==> comps[i] != "" && forall j :: 0 <= j < |comps[i]| ==> comps[i][j] != '/'
  }

  lemma {:induction false} ComponentsArePieces(s: string)
    ensures AllPieces(Components(s))
    decreases |s|
  {
    if s != "" {
      if s[0] == '/' {
        ComponentsArePieces(s[1..]);
      } else {
        ComponentsArePieces(s[CompLen(s)..]);
      }
    }
  }

  lemma {:induction false} ResolvedIsPlain(stack: seq<string>, comps: seq<string>)
    requires AllPlain(stack) && AllPieces(comps)
    ensures AllPlain(Resolve(stack, comps))
    decreases |comps|
  {
    if comps != [] {
      ResolvedIsPlain(Push(stack, comps[0]), comps[1..]);
    }
  }

  /** Components of a path that goes on with a slash. */
  lemma {:induction false} ComponentsOfAppend(s: string, t: string)
    requires t == "" || t[0] == '/'
    ensures Components(s + t) == Components(s) + Components(t)
    decreases |s|
  {
    if s == "" {
      assert s + t == t;
    } else if s[0] == '/' {
      ComponentsOfAppend(s[1..], t);
      assert (s + t)[1..] == s[1..] + t;
    } else {
      var k := CompLen(s);
      CompLenOfAppend(s, t);
      ComponentsOfAppend(s[k..], t);
      assert (s + t)[..k] == s[..k] && (s + t)[k..] == s[k..] + t;
    }
  }

  lemma {:induction false} CompLenOfAppend(s: string, t: string)
    requires t == "" || t[0] == '/'
    ensures CompLen(s + t) == CompLen(s)
    decreases |s|
  {
    if s == "" {
      assert s + t == t;
    } else if s[0] != '/' {
      CompLenOfAppend(s[1..], t);
      assert (s + t)[1..] == s[1..] + t;
    }
  }

  lemma ComponentsOfPiece(c: string)
    requires Plain(c)
    ensures Components("/" + c) == [c]
  {
    var s := "/" + c;
    assert s[1..] == c && CompLen(c) == |c| && c[..|c|] == c && c[|c|..] == "";
    assert Components(c) == [c] + Components("");
  }

  lemma {:induction false} ComponentsOfJoined(stack: seq<string>)
    requires AllPlain(stack)
    ensures Components(Joined(stack)) == stack
    decreases |stack|
  {
    if stack != [] {
      var rest, c := stack[..|stack| - 1], stack[|stack| - 1];
      assert Plain(c) && AllPlain(rest);
      ComponentsOfJoined(rest);
      OneMorePiece(Joined(rest), c);
      assert rest + [c] == stack;
    }
  }

  lemma OneMorePiece(s: string, c: string)
    requires Plain(c)
    ensures Components(s + "/" + c) == Components(s) + [c]
  {
    var t := "/" + c;
    ComponentsOfAppend(s, t);
    ComponentsOfPiece(c);
    assert s + "/" + c == s + t;
  }

  lemma {:induction false} ResolvePlain(stack: seq<string>, comps: seq<string>)
    requires AllPlain(comps)
    ensures Resolve(stack, comps) == stack + comps
    decreases |comps|
  {
    if comps != [] {
      ResolvePlain(Push(stack, comps[0]), comps[1..]);
      assert (stack + [comps[0]]) + comps[1..] == stack + comps;
    }
  }

  /** A rendered stack of plain names means itself. */
  lemma RenderedIsNormal(stack: seq<string>)
    requires AllPlain(stack)
    ensures Normal(Rendered(stack)) == Rendered(stack) && Absolute(Rendered(stack))
  {
    if stack == [] {
      assert Components("/") == Components("") == [];
    } else {
      ComponentsOfJoined(stack);
      ResolvePlain([], stack);
      assert [] + stack == stack;
      JoinedStarts(stack);
    }
  }

  lemma {:induction false} JoinedStarts(stack: seq<string>)
    requires stack != []
    ensures Absolute(Joined(stack))
    decreases |stack|
  {
    if |stack| > 1 {
      JoinedStarts(stack[..|stack| - 1]);
    }
  }

  lemma NormalStack(path: string)
    ensures AllPlain(Resolve([], Components(path)))
  {
    ComponentsArePieces(path);
    ResolvedIsPlain([], Components(path));
  }

  /** Normalising twice changes nothing, and the result is absolute. */
  lemma Idempotent(path: string)
    ensures Normal(Normal(path)) == Normal(path) && Absolute(Normal(path))
  {
    NormalStack(path);
    RenderedIsNormal(Resolve([], Components(path)));
  }

  lemma {:induction false} ResolveAppend(stack: seq<string>, a: seq<string>, b: seq<string>)
    ensures Resolve(stack, a + b) == Resolve(Resolve(stack, a), b)
    decreases |a|
  {
    if a == [] {
      assert a + b == b;
    } else {
      assert (a + b)[1..] == a[1..] + b;
      ResolveAppend(Push(stack, a[0]), a[1..], b);
    }
  }

  /** The beginning of a path may be normalised first. */
  lemma NormalInSteps(p: string, q: string)
    ensures Normal(p + "/" + q) == Normal(Normal(p) + "/" + q)
  {
    var stack, t := Resolve([], Components(p)), "/" + q;
    NormalStack(p);
    assert p + "/" + q == p + t && Normal(p) + "/" + q == Normal(p) + t;
    ComponentsOfAppend(p, t);
    ComponentsOfAppend(Normal(p), t);
    ResolveAppend([], Components(p), Components(t));
    ResolveAppend([], Components(Normal(p)), Components(t));
    NormalComponents(stack);
    ResolvePlain([], stack);
    assert [] + stack == stack;
  }

  lemma NormalComponents(stack: seq<string>)
    requires AllPlain(stack)
    ensures Components(Rendered(stack)) == stack
  {
    if stack == [] {
      assert Components("/") == Components("") == [];
    } else {
      ComponentsOfJoined(stack);
    }
  }

  lemma ComponentsOfDots()
    ensures Components("/..") == [".."] && Components("/.") == ["."]
  {
    assert "/.."[1..] == ".." && CompLen("..") == 2 && ".."[..2] == ".." && ".."[2..] == "";
    assert "/."[1..] == "." && CompLen(".") == 1 && "."[..1] == "." && "."[1..] == "";
  }

  /** Going down to a name and up again leads back, and so does staying; above the root is the root. */
  lemma UpUndoesDown(p: string, c: string)
    requires Plain(c)
    ensures Normal(p + "/" + c + "/..") == Normal(p) == Normal(p + "/.") && Normal("/..") == "/"
  {
    var comps := Components(p);
    ComponentsOfDots();
    OneMorePiece(p, c);
    ComponentsOfAppend(p + "/" + c, "/..");
    ComponentsOfAppend(p, "/.");
    ResolveAppend([], comps + [c], [".."]);
    ResolveAppend([], comps, [c]);
    ResolveAppend([], comps, ["."]);
    OneComponent(Resolve([], comps), c);
    OneComponent(Resolve([], comps + [c]), "..");
    OneComponent(Resolve([], comps), ".");
    OneComponent([], "..");
  }

  lemma OneComponent(stack: seq<string>, c: string)
    ensures Resolve(stack, [c]) == Push(stack, c)
  {
    assert [c][1..] == [];
  }

  // ---- length ----

  function Width(stack: seq<string>): nat {
    if stack == [] then 0 else Width(stack[..|stack| - 1]) + 1 + |stack[|stack| - 1]|
  }

  lemma {:induction false} JoinedWidth(stack: seq<string>)
    ensures |Joined(stack)| == Width(stack)
    decreases |stack|
  {
    if stack != [] {
      JoinedWidth(stack[..|stack| - 1]);
    }
  }

  function Total(comps: seq<string>): nat {
    if comps == [] then 0 else 1 + |comps[0]| + Total(comps[1..])
  }

  lemma {:induction false} ResolvedWidth(stack: seq<string>, comps: seq<string>)
    ensures Width(Resolve(stack, comps)) <= Width(stack) + Total(comps)
    decreases |comps|
  {
    if comps != [] {
      var s := Push(stack, comps[0]);
      assert comps[0] != "." && comps[0] != ".." ==> s[..|s| - 1] == stack;
      ResolvedWidth(s, comps[1..]);
    }
  }

  lemma {:induction false} ComponentsTotal(s: string)
    ensures Total(Components(s)) <= |s| + 1
    ensures s == "" || s[0] == '/' ==> Total(Components(s)) <= |s|
    decreases |s|
  {
    if s != "" {
      if s[0] == '/' {
        ComponentsTotal(s[1..]);
      } else {
        var k := CompLen(s);
        ComponentsTotal(s[k..]);
        assert Components(s)[1..] == Components(s[k..]);
      }
    }
  }

  /** A normalised path is never longer. */
  lemma NeverLonger(path: string)
    requires Absolute(path)
    ensures |Normal(path)| <= |path|
  {
    var stack := Resolve([], Components(path));
    ComponentsTotal(path);
    ResolvedWidth([], Components(path));
    JoinedWidth(stack);
  }

  // ---- collapse_path ----

  /** path[i..j] is a maximal piece without slashes. */
  ghost predicate PieceAt(path: string, i: nat, j: nat) {
    && i < j <= |path| && (forall x :: i <= x < j ==> path[x] != '/') && (j < |path| ==> path[j] == '/')
  }

  lemma HeadComponent(path: string, i: nat, stack: seq<string>) returns (j: nat)
    requires i < |path| && path[i] != '/'
    ensures PieceAt(path, i, j) && Components(path[i..]) == [path[i..j]] + Components(path[j..])
    ensures Resolve(stack, Components(path[i..])) == Resolve(Push(stack, path[i..j]), Components(path[j..]))
  {
    var rest := path[i..];
    j := i + CompLen(rest);
    assert forall x :: i <= x < j ==> path[x] == rest[x - i];
    assert j < |path| ==> path[j] == rest[j - i];
    assert rest[..j - i] == path[i..j] && rest[j - i..] == path[j..];
    assert Components(rest)[1..] == Components(path[j..]);
  }

  /** The two dot tests of collapse_path recognise "." and ".." and nothing else. */
  lemma DotTests(path: string, i: nat, j: nat)
    requires PieceAt(path, i, j)
    ensures path[i..j] == "." <==> path[i] == '.' && (i + 1 == |path| || path[i + 1] == '/')
    ensures path[i..j] == ".." <==> path[i] == '.' && i + 1 < |path| && path[i + 1] == '.' &&
                                    (i + 2 == |path| || path[i + 2] == '/')
  {
    assert j == i + 1 <==> i + 1 == |path| || path[i + 1] == '/';
    if j > i + 1 {
      assert j == i + 2 <==> i + 2 == |path| || path[i + 2] == '/';
      assert path[i..j][0] == path[i] && path[i..j][1] == path[i + 1];
      assert j == i + 2 ==> path[i..j] == [path[i], path[i + 1]];
    } else {
      assert path[i..j] == [path[i]];
    }
  }

  method SkipSlashes(path: string, i: nat) returns (j: nat)
    requires i <= |path|
    ensures i <= j <= |path| && (j < |path| ==> path[j] != '/') && Components(path[j..]) == Components(path[i..])
    ensures i < |path| && path[i] == '/' ==> i < j
  {
    j := i;
    while j < |path| && path[j] == '/'
      invariant i <= j <= |path| && Components(path[j..]) == Components(path[i..])
    {
      assert path[j..][1..] == path[j + 1..];
      j := j + 1;
    }
  }

  /** The innermost copy loop: one component. */
  method CopyComponent(path: string, i: nat, temp: array<char>, out: nat, ghost end: nat) returns (j: nat, o: nat)
    requires PieceAt(path, i, end) && out + (|path| - i) <= temp.Length
    modifies temp
    ensures j == end && o == out + (j - i) && temp[..o] == old(temp[..out]) + path[i..j]
  {
    j, o := i, out;
    while j < |path| && path[j] != '/'
      invariant i <= j <= end && o == out + (j - i)
      invariant temp[..o] == old(temp[..out]) + path[i..j]
    {
      temp[o] := path[j];
      j, o := j + 1, o + 1;
    }
  }

  /** Past open, which ends with a slash, there is no other one. */
  lemma LastSlash(open: string, c: string, o: nat)
    requires 0 < |open| <= o <= |open + c| && open[|open| - 1] == '/' && forall i :: 0 <= i < |c| ==> c[i] != '/'
    ensures (open + c)[o - 1] == '/' <==> o == |open|
  {
    if o > |open| {
      assert (open + c)[o - 1] == c[o - 1 - |open|];
    }
  }

  /** The loop for "..": drop the trailing slash and the last component. */
  method PopComponent(temp: array<char>, out: nat, ghost stack: seq<string>) returns (o: nat)
    requires stack != [] && AllPlain(stack) && out <= temp.Length && temp[..out] == Joined(stack) + "/"
    ensures o <= out && temp[..o] == Joined(stack[..|stack| - 1]) + "/"
  {
    ghost var open, c := Joined(stack[..|stack| - 1]) + "/", stack[|stack| - 1];
    assert temp[..out - 1] == open + c;
    o := out - 1;
    while o > 0 && temp[o - 1] != '/'
      invariant |open| <= o <= out - 1 && temp[..o] == (open + c)[..o]
    {
      assert temp[o - 1] == (open + c)[o - 1];
      o := o - 1;
    }
    LastSlash(open, c, o);
    assert temp[o - 1] == (open + c)[..o][o - 1];
    assert (open + c)[..|open|] == open;
  }

  /** The scratch buffer between rounds: nothing yet, or the stack with or without a slash after it. */
  ghost predicate Shape(buf: string, stack: seq<string>, path: string, i: nat) {
    && AllPlain(stack) && i <= |path| && |buf| <= i
    && (|| (buf == "" && i == 0 && stack == [])
        || buf == Joined(stack) + "/"
        || (stack != [] && buf == Joined(stack) && (i == |path| || path[i] == '/')))
  }

  lemma {:induction false} NoTrailingSlash(stack: seq<string>)
    requires stack != [] && AllPlain(stack)
    ensures |Joined(stack)| > 1 && Joined(stack)[|Joined(stack)| - 1] != '/'
  {
    var c := stack[|stack| - 1];
    assert Joined(stack)[|Joined(stack)| - 1] == c[|c| - 1];
  }

  /** One round at a slash. */
  method SlashRound(path: string, i: nat, temp: array<char>, out: nat, ghost stack: seq<string>)
    returns (j: nat, o: nat)
    requires i < |path| < temp.Length && path[i] == '/' && out <= i && Shape(temp[..out], stack, path, i)
    modifies temp
    ensures i < j && o <= temp.Length && Shape(temp[..o], stack, path, j)
    ensures temp[..o] == Joined(stack) + "/" && Components(path[j..]) == Components(path[i..])
  {
    j := SkipSlashes(path, i);
    o := out;
    if stack != [] {
      NoTrailingSlash(stack);
    }
    assert out > 0 ==> temp[out - 1] == temp[..out][out - 1];
    if out == 0 || temp[out - 1] != '/' {
      temp[out] := '/';
      o := out + 1;
      assert temp[..o] == old(temp[..out]) + "/";
    }
  }

  lemma PushName(path: string, i: nat, j: nat, stack: seq<string>)
    requires PieceAt(path, i, j) && AllPlain(stack) && path[i..j] != "." && path[i..j] != ".."
    ensures var stack' := Push(stack, path[i..j]);
            stack' != [] && AllPlain(stack') && Joined(stack') == Joined(stack) + "/" + path[i..j]
  {
    var c := path[i..j];
    var stack' := Push(stack, c);
    assert stack'[..|stack'| - 1] == stack;
    assert Plain(c);
  }

  /** One round at a component that is a name. */
  method NameRound(path: string, i: nat, temp: array<char>, out: nat, ghost stack: seq<string>, ghost end: nat)
    returns (j: nat, o: nat)
    requires PieceAt(path, i, end) && path[i..end] != "." && path[i..end] != ".."
    requires |path| < temp.Length && out <= i && AllPlain(stack) && temp[..out] == Joined(stack) + "/"
    modifies temp
    ensures j == end && o <= temp.Length && Shape(temp[..o], Push(stack, path[i..end]), path, end)
  {
    PushName(path, i, end, stack);
    j, o := CopyComponent(path, i, temp, out, end);
  }

  /** One round at "..". */
  method UpRound(temp: array<char>, out: nat, ghost stack: seq<string>) returns (o: nat)
    requires out <= temp.Length && AllPlain(stack) && temp[..out] == Joined(stack) + "/"
    ensures o <= out && temp[..o] == Joined(Push(stack, "..")) + "/" && AllPlain(Push(stack, ".."))
  {
    if stack != [] {
      NoTrailingSlash(stack);
    }
    o := out;
    if out > 1 {
      o := PopComponent(temp, out, stack);
    }
  }

  /** One round at a component. */
  method ComponentRound(path: string, i: nat, temp: array<char>, out: nat, ghost stack: seq<string>)
    returns (j: nat, o: nat, ghost stack': seq<string>)
    requires i < |path| < temp.Length && path[i] != '/' && out <= i && AllPlain(stack) &&
             temp[..out] == Joined(stack) + "/"
    modifies temp
    ensures i < j && o <= temp.Length && Shape(temp[..o], stack', path, j)
    ensures Resolve(stack', Components(path[j..])) == Resolve(stack, Components(path[i..]))
  {
    ghost var end := HeadComponent(path, i, stack);
    DotTests(path, i, end);
    stack' := Push(stack, path[i..end]);
    if path[i] == '.' {
      if i + 1 == |path| || path[i + 1] == '/' {
        return i + 1, out, stack';
      } else if path[i + 1] == '.' && (i + 2 == |path| || path[i + 2] == '/') {
        o := UpRound(temp, out, stack);
        return i + 2, o, stack';
      }
    }
    j, o := NameRound(path, i, temp, out, stack, end);
  }

  /** collapse_path up to its copy back: the normalised text ends up in temp. */
  method CollapseInto(path: string, temp: array<char>) returns (out: nat)
    requires Absolute(path) && |path| < temp.Length
    modifies temp
    ensures out < temp.Length && temp[..out] == Normal(path)
  {
    var i := 0;
    out := 0;
    ghost var stack: seq<string> := [];
    assert path[0..] == path;
    while i < |path|
      invariant i <= |path| && out <= i && Shape(temp[..out], stack, path, i)
      invariant Resolve(stack, Components(path[i..])) == Resolve([], Components(path))
      decreases |path| - i
    {
      if path[i] == '/' {
        i, out := SlashRound(path, i, temp, out, stack);
      } else {
        i, out, stack := ComponentRound(path, i, temp, out, stack);
      }
    }
    assert path[i..] == "" && Components("") == [];
    if stack != [] {
      NoTrailingSlash(stack);
    }
    assert out > 0 ==> temp[out - 1] == temp[..out][out - 1];
    ghost var text := temp[..out];
    if out > 1 && temp[out - 1] == '/' {
      out := out - 1;
      assert temp[..out] == text[..out];
      assert (Joined(stack) + "/")[..|Joined(stack)|] == Joined(stack);
    }
  }

  // ---- C strings ----

  function Len(s: seq<char>): (n: nat)
    ensures n <= |s| && (forall i :: 0 <= i < n ==> s[i] != '\0') && (n < |s| ==> s[n] == '\0')
  {
    if s == [] || s[0] == '\0' then 0 else 1 + Len(s[1..])
  }

  function Text(s: seq<char>): string {
    s[..Len(s)]
  }

  predicate Terminated(s: seq<char>) {
    Len(s) < |s|
  }

  predicate NulFree(s: string) {
    forall i :: 0 <= i < |s| ==> s[i] != '\0'
  }

  lemma TextIs(s: seq<char>, t: string)
    requires |t| < |s| && s[..|t|] == t && NulFree(t) && s[|t|] == '\0'
    ensures Terminated(s) && Text(s) == t
  {
    assert forall i :: 0 <= i < |t| ==> s[i] == s[..|t|][i];
  }

  ghost predicate AllNulFree(comps: seq<string>) {
    forall i :: 0 <= i < |comps| ==> NulFree(comps[i])
  }

  lemma {:induction false} ComponentsNulFree(s: string)
    requires NulFree(s)
    ensures AllNulFree(Components(s))
    decreases |s|
  {
    if s != "" {
      if s[0] == '/' {
        ComponentsNulFree(s[1..]);
      } else {
        ComponentsNulFree(s[CompLen(s)..]);
      }
    }
  }

  lemma {:induction false} ResolveNulFree(stack: seq<string>, comps: seq<string>)
    requires AllNulFree(stack) && AllNulFree(comps)
    ensures AllNulFree(Resolve(stack, comps))
    decreases |comps|
  {
    if comps != [] {
      ResolveNulFree(Push(stack, comps[0]), comps[1..]);
    }
  }

  lemma {:induction false} JoinedNulFree(stack: seq<string>)
    requires AllNulFree(stack)
    ensures NulFree(Joined(stack))
    decreases |stack|
  {
    if stack != [] {
      JoinedNulFree(stack[..|stack| - 1]);
      assert NulFree(stack[|stack| - 1]);
    }
  }

  lemma NormalNulFree(path: string)
    requires NulFree(path)
    ensures NulFree(Normal(path))
  {
    ComponentsNulFree(path);
    ResolveNulFree([], Components(path));
    JoinedNulFree(Resolve([], Components(path)));
  }

  function CharAt(src: string, k: nat): char {
    if k < |src| then src[k] else '\0'
  }

  method StrLen(a: array<char>) returns (n: nat)
    requires Terminated(a[..])
    ensures n == Len(a[..])
  {
    n := 0;
    while a[n] != '\0'
      invariant n <= Len(a[..])
      decreases a.Length - n
    {
      n := n + 1;
    }
  }

  /** strncpy(dst + at, src, n) of a string without NULs. */
  method StrNCpy(dst: array<char>, at: nat, src: string, n: nat)
    requires at + n <= dst.Length
    modifies dst
    ensures forall i :: 0 <= i < dst.Length ==> dst[i] == if at <= i < at + n then CharAt(src, i - at) else old(dst[i])
  {
    var k := 0;
    while k < n
      invariant k <= n
      invariant forall i :: 0 <= i < dst.Length ==>
                  dst[i] == if at <= i < at + k then CharAt(src, i - at) else old(dst[i])
    {
      dst[at + k] := CharAt(src, k);
      k := k + 1;
    }
  }

  /** strncpy of a whole string into a buffer of PATH_MAX characters, and the terminator after it. */
  method StoreText(dst: array<char>, text: string)
    requires dst.Length == PATH_MAX && |text| < PATH_MAX && NulFree(text)
    modifies dst
    ensures Terminated(dst[..]) && Text(dst[..]) == text
  {
    StrNCpy(dst, 0, text, PATH_MAX);
    dst[PATH_MAX - 1] := '\0';
    assert dst[..|text|] == text;
    TextIs(dst[..], text);
  }

  /** collapse_path; input and output may be the same buffer. */
  method CollapsePath(pathIn: array<char>, pathOut: array<char>)
    requires pathIn.Length == pathOut.Length == PATH_MAX && Terminated(pathIn[..]) && Absolute(Text(pathIn[..]))
    modifies pathOut
    ensures Terminated(pathOut[..]) && Text(pathOut[..]) == Normal(old(Text(pathIn[..])))
  {
    var temp := new char[PATH_MAX];
    var len := StrLen(pathIn);
    var path := pathIn[..len];
    assert path == Text(pathIn[..]) && NulFree(path);
    var out := CollapseInto(path, temp);
    NormalNulFree(path);
    var text := temp[..out];
    StoreText(pathOut, text);
  }

  // ---- handle_relative_path and chdir ----

  datatype Result = Ok(path: string) | Err(errno: int)

  /** The absolute path meant by `rel`; an absolute one that does not fit is cut off. */
  function AbsoluteOf(rel: string, cwd: string): Result {
    if Absolute(rel) then Ok(if |rel| < PATH_MAX then rel else rel[..PATH_MAX - 1])
    else if cwd == "" then (if |rel| + 2 > PATH_MAX then Err(-ENAMETOOLONG) else Ok("/" + rel))
    else if |cwd| + |rel| + 2 > PATH_MAX then Err(-ENAMETOOLONG)
    else Ok(cwd + "/" + rel)
  }

  /** The working directory and the return value after chdir(rel), given what a lookup would say. */
  function Changed(cwd: string, rel: string, lookup: string -> int): (string, int) {
    match AbsoluteOf(rel, cwd)
    case Err(e) => (cwd, e)
    case Ok(path) =>
      var res := lookup(Normal(path));
      if res < 0 then (cwd, res) else if res == ONE_LEVEL_AWAY then (cwd, -ENOENT) else (Normal(path), 0)
  }

  ghost predicate ProperCwd(cwd: string) {
    Absolute(cwd) && Normal(cwd) == cwd && |cwd| < PATH_MAX && NulFree(cwd)
  }

  lemma ChdirKeepsCwd(cwd: string, rel: string, lookup: string -> int)
    requires ProperCwd(cwd) && NulFree(rel)
    ensures ProperCwd(Changed(cwd, rel, lookup).0)
  {
    match AbsoluteOf(rel, cwd)
    case Err(e) =>
    case Ok(path) =>
      Idempotent(path);
      NeverLonger(path);
      NormalNulFree(path);
  }

  function AfterChdirs(cwd: string, calls: seq<(string, string -> int)>): string
    decreases |calls|
  {
    if calls == [] then cwd else AfterChdirs(Changed(cwd, calls[0].0, calls[0].1).0, calls[1..])
  }

  /** Along any run of chdir calls the working directory stays absolute, normalised and short enough. */
  lemma {:induction false} EveryRunKeepsCwd(cwd: string, calls: seq<(string, string -> int)>)
    requires ProperCwd(cwd) && forall i :: 0 <= i < |calls| ==> NulFree(calls[i].0)
    ensures ProperCwd(AfterChdirs(cwd, calls))
    decreases |calls|
  {
    if calls != [] {
      ChdirKeepsCwd(cwd, calls[0].0, calls[0].1);
      EveryRunKeepsCwd(Changed(cwd, calls[0].0, calls[0].1).0, calls[1..]);
    }
  }

  /**
    A relative path means the same as the path written out from the working directory, unless it does
    not fit: then it is refused, while a path written out would be cut off.
   */
  lemma RelativeMeansFromCwd(cwd: string, rel: string, lookup: string -> int)
    requires ProperCwd(cwd) && !Absolute(rel)
    ensures if |cwd| + |rel| + 2 <= PATH_MAX then Changed(cwd, rel, lookup) == Changed(cwd, cwd + "/" + rel, lookup)
            else Changed(cwd, rel, lookup) == (cwd, -ENAMETOOLONG)
  {
  }

  /** chdir to a name and then to "..", when both lookups answer, comes back to the directory it began in. */
  lemma ThereAndBack(cwd: string, c: string, down: string -> int, up: string -> int)
    requires ProperCwd(cwd) && Plain(c) && NulFree(c)
    ensures var (there, res) := Changed(cwd, c, down);
            res == 0 ==> Changed(there, "..", up).1 == 0 ==> Changed(there, "..", up).0 == cwd
  {
    var (there, res) := Changed(cwd, c, down);
    if res == 0 {
      NormalInSteps(cwd + "/" + c, "..");
      UpUndoesDown(cwd, c);
      assert cwd + "/" + c + "/" + ".." == cwd + "/" + c + "/..";
      assert there == Normal(cwd + "/" + c);
    }
  }

  /** A name looked up from the root. */
  lemma NameInRoot(name: string)
    requires Plain(name)
    ensures Normal("/" + "/" + name) == "/" + name && Components("/" + name) == [name] && !Absolute(name)
  {
    ComponentsOfPiece(name);
    ComponentsOfAppend("/", "/" + name);
    assert "/" + ("/" + name) == "/" + "/" + name && Components("/") == [] && [] + [name] == [name];
    assert AllPlain([name]);
    ResolvePlain([], [name]);
    assert Joined([name]) == "" + "/" + name;
  }

  lemma RootIsProper()
    ensures ProperCwd("/")
  {
    RenderedIsNormal([]);
  }

  /** The stores of handle_relative_path for a relative path: dir, a slash, rel. */
  method JoinPaths(dir: string, rel: string, out: array<char>)
    requires |dir| + |rel| + 2 <= out.Length == PATH_MAX && NulFree(dir) && NulFree(rel)
    modifies out
    ensures Terminated(out[..]) && Text(out[..]) == dir + "/" + rel
  {
    StrNCpy(out, 0, dir, |dir| + 1);
    out[|dir|] := '/';
    StrNCpy(out, |dir| + 1, rel, |rel| + 1);
    out[PATH_MAX - 1] := '\0';
    ghost var t := dir + "/" + rel;
    assert out[..|t|] == t;
    TextIs(out[..], t);
  }

  class Process {
    const cwd: array<char>

    ghost predicate Valid()
      reads this, cwd
    {
      cwd.Length == PATH_MAX && Terminated(cwd[..]) && ProperCwd(Text(cwd[..]))
    }

    /** A process without a parent starts at the root. */
    constructor ()
      ensures Valid() && Text(cwd[..]) == "/" && fresh(cwd)
    {
      cwd := new char[PATH_MAX];
      new;
      StoreText(cwd, "/");
      RootIsProper();
    }

    /** handle_relative_path */
    method HandleRelativePath(rel: string, out: array<char>) returns (res: int)
      requires cwd.Length == PATH_MAX && Terminated(cwd[..]) && NulFree(rel) && out.Length == PATH_MAX && out != cwd
      modifies out
      ensures match AbsoluteOf(rel, Text(cwd[..]))
              case Err(e) => res == e
              case Ok(path) => res == 0 && Terminated(out[..]) && Text(out[..]) == path
    {
      if rel != "" && rel[0] == '/' {
        StrNCpy(out, 0, rel, PATH_MAX);
        out[PATH_MAX - 1] := '\0';
        TextIs(out[..], if |rel| < PATH_MAX then rel else rel[..PATH_MAX - 1]);
        return 0;
      }
      var cwdLen := StrLen(cwd);
      var dir := cwd[..cwdLen];
      if cwd[0] == '\0' {
        if |rel| + 2 > PATH_MAX {
          return -ENAMETOOLONG;
        }
      } else if cwdLen + |rel| + 2 > PATH_MAX {
        return -ENAMETOOLONG;
      }
      JoinPaths(dir, rel, out);
      return 0;
    }

    /** syscall_routine_chdir */
    method Chdir(rel: string, lookup: string -> int) returns (res: int)
      requires Valid() && NulFree(rel)
      modifies cwd
      ensures Valid() && (Text(cwd[..]), res) == Changed(old(Text(cwd[..])), rel, lookup)
    {
      ghost var dir := Text(cwd[..]);
      ChdirKeepsCwd(dir, rel, lookup);
      var pathAbs := new char[PATH_MAX];
      res := HandleRelativePath(rel, pathAbs);
      if res < 0 {
        return;
      }
      CollapsePath(pathAbs, pathAbs);
      var len := StrLen(pathAbs);
      var path := pathAbs[..len];
      res := lookup(path);
      if res < 0 {
        return;
      } else if res == ONE_LEVEL_AWAY {
        return -ENOENT;
      }
      StoreText(cwd, path);
      return 0;
    }
  }
}
