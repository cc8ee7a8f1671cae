/** Path names of pmeunier-project/fs.c: a first pass counts the components, a second
    one stores them in an array of just that size. */
module FsParse {
  import opened Errno

  const FS_FILENAME_SIZE := 28

  // ---- tokens, as strtok delivers them

  function Skip(path: string, i: nat): (j: nat)
    requires i <= |path|
    ensures i <= j <= |path| && (j < |path| ==> path[j] != '/')
    decreases |path| - i
  {
    if i < |path| && path[i] == '/' then Skip(path, i + 1) else i
  }

  function End(path: string, i: nat): (j: nat)
    requires i <= |path|
    ensures i <= j <= |path| && (i < |path| && path[i] != '/' ==> i < j)
    decreases |path| - i
  {
    if i < |path| && path[i] != '/' then End(path, i + 1) else i
  }

  /** The non-empty stretches between slashes, from position i on. */
  function Tokens(path: string, i: nat): seq<string>
    requires i <= |path|
    decreases |path| - i
  {
    var j := Skip(path, i);
    if j == |path| then [] else [path[j..End(path, j)]] + Tokens(path, End(path, j))
  }

  // ---- what the components are

  /** One token: ".." takes one back, unless there is none, "." does nothing. */
  function Push(stack: seq<string>, t: string): seq<string> {
    if t == ".." && |stack| > 0 then stack[..|stack| - 1]
    else if t != "." then stack + [t]
    else stack
  }

  function Normal(stack: seq<string>, tokens: seq<string>): seq<string>
    decreases |tokens|
  {
    if tokens == [] then stack else Normal(Push(stack, tokens[0]), tokens[1..])
  }

  /** The components of a path. */
  function Components(path: string): seq<string> {
    Normal([], Tokens(path, 0))
  }

  predicate TooLong(tokens: seq<string>) {
    exists k :: 0 <= k < |tokens| && |tokens[k]| > FS_FILENAME_SIZE - 1
  }

  /** A component list in normal form: no ".", and ".." at the front only, where it is
      an ordinary name. */
  predicate Clean(stack: seq<string>) {
    forall k :: 0 <= k < |stack| ==> stack[k] != "." && (k > 0 ==> stack[k] != "..")
  }

  lemma {:induction false} NormalIsClean(stack: seq<string>, tokens: seq<string>)
    requires Clean(stack)
    ensures Clean(Normal(stack, tokens))
    decreases |tokens|
  {
    if tokens != [] { NormalIsClean(Push(stack, tokens[0]), tokens[1..]); }
  }

  lemma {:induction false} CleanIsNormal(stack: seq<string>, tokens: seq<string>)
    requires Clean(stack + tokens)
    ensures Normal(stack, tokens) == stack + tokens
    decreases |tokens|
  {
    if tokens == [] {
      assert stack + tokens == stack;
    } else {
      assert (stack + tokens)[|stack|] == tokens[0];
      assert Push(stack, tokens[0]) == stack + [tokens[0]];
      assert stack + [tokens[0]] + tokens[1..] == stack + tokens;
      CleanIsNormal(stack + [tokens[0]], tokens[1..]);
    }
  }

  /** Normalising is idempotent, and its results are exactly the clean lists. */
  lemma NormalIff(tokens: seq<string>)
    ensures Normal([], tokens) == tokens <==> Clean(tokens)
    ensures Normal([], Normal([], tokens)) == Normal([], tokens)
  {
    NormalIsClean([], tokens);
    var r := Normal([], tokens);
    assert [] + r == r && [] + tokens == tokens;
    CleanIsNormal([], r);
    if Clean(tokens) { CleanIsNormal([], tokens); }
  }

  // ---- what "." and ".." do

  predicate Ordinary(name: string) {
    name != "." && name != ".."
  }

  lemma {:induction false} NormalSplit(stack: seq<string>, a: seq<string>, b: seq<string>)
    ensures Normal(stack, a + b) == Normal(Normal(stack, a), b)
    decreases |a|
  {
    if a == [] {
      assert a + b == b;
    } else {
      assert (a + b)[1..] == a[1..] + b;
      NormalSplit(Push(stack, a[0]), a[1..], b);
    }
  }

  lemma NormalFew(stack: seq<string>, x: string, y: string)
    ensures Normal(stack, [x]) == Push(stack, x) && Normal(stack, [x, y]) == Push(Push(stack, x), y)
  {
    assert [x, y][1..] == [y] && [x][1..] == [] && [y][1..] == [];
    assert Normal(stack, [x, y]) == Normal(Push(stack, x), [y]) == Push(Push(stack, x), y);
  }

  /** A name and ".." after it cancel, wherever they are; for ".." itself as the name that
      is so where nothing is before it.  "." does nothing. */
  lemma NormalCancels(stack: seq<string>, a: seq<string>, x: string, b: seq<string>)
    ensures Ordinary(x) ==> Normal(stack, a + [x, ".."] + b) == Normal(stack, a + b)
    ensures Normal(stack, a) == [] ==> Normal(stack, a + ["..", ".."] + b) == Normal(stack, a + b)
    ensures Normal(stack, a + ["."] + b) == Normal(stack, a + b)
  {
    var s := Normal(stack, a);
    NormalSplit(stack, a, b);
    NormalSplit(stack, a + [x, ".."], b);
    NormalSplit(stack, a, [x, ".."]);
    NormalSplit(stack, a + ["..", ".."], b);
    NormalSplit(stack, a, ["..", ".."]);
    NormalSplit(stack, a + ["."], b);
    NormalSplit(stack, a, ["."]);
    NormalFew(s, x, "..");
    NormalFew(s, "..", "..");
    NormalFew(s, ".", "..");
    assert (s + [x])[..|s|] == s;
    assert s == [] ==> (s + [".."])[..0] == s;
    hide Normal;
  }

  // ---- what the tokens are

  /** Two paths with a slash between them. */
  function Path(p: string, q: string): string {
    p + "/" + q
  }

  predicate SlashFree(s: string) {
    forall i :: 0 <= i < |s| ==> s[i] != '/'
  }

  lemma {:induction false} SkipJoined(p: string, q: string, i: nat)
    requires i <= |p|
    ensures Skip(p + "/" + q, i) == if Skip(p, i) < |p| then Skip(p, i) else |p| + 1 + Skip(q, 0)
    decreases |p| - i
  {
    var s := p + "/" + q;
    if i == |p| {
      assert s[i] == '/';
      SkipShifted(s, q, |p| + 1, 0);
    } else {
      assert s[i] == p[i];
      if p[i] == '/' { SkipJoined(p, q, i + 1); }
    }
  }

  /** In a path that ends in q the tokens of q are found from its start on. */
  predicate EndsIn(s: string, q: string, n: nat) {
    |s| == n + |q| && s[n..] == q
  }

  lemma {:induction false} SkipShifted(s: string, q: string, n: nat, i: nat)
    requires EndsIn(s, q, n) && i <= |q|
    ensures Skip(s, n + i) == n + Skip(q, i)
    decreases |q| - i
  {
    if i < |q| {
      assert s[n + i] == s[n..][i] == q[i];
      if q[i] == '/' { SkipShifted(s, q, n, i + 1); }
    }
  }

  lemma {:induction false} EndShifted(s: string, q: string, n: nat, i: nat)
    requires EndsIn(s, q, n) && i <= |q|
    ensures End(s, n + i) == n + End(q, i)
    decreases |q| - i
  {
    if i < |q| {
      assert s[n + i] == s[n..][i] == q[i];
      if q[i] != '/' { EndShifted(s, q, n, i + 1); }
    }
  }

  lemma {:induction false} TokensShifted(s: string, q: string, n: nat, i: nat)
    requires EndsIn(s, q, n) && i <= |q|
    ensures Tokens(s, n + i) == Tokens(q, i)
    decreases |q| - i
  {
    SkipShifted(s, q, n, i);
    var j := Skip(q, i);
    if j < |q| {
      EndShifted(s, q, n, j);
      var k := End(q, j);
      assert s[n + j..n + k] == s[n..][j..k] == q[j..k];
      TokensShifted(s, q, n, k);
    }
  }

  lemma {:induction false} EndJoined(p: string, q: string, i: nat)
    requires i <= |p|
    ensures End(p + "/" + q, i) == End(p, i)
    decreases |p| - i
  {
    var s := p + "/" + q;
    if i == |p| {
      assert s[i] == '/';
    } else {
      assert s[i] == p[i];
      if p[i] != '/' { EndJoined(p, q, i + 1); }
    }
  }

  lemma {:induction false} TokensJoinedFrom(p: string, q: string, i: nat)
    requires i <= |p|
    ensures Tokens(p + "/" + q, i) == Tokens(p, i) + Tokens(q, 0)
    decreases |p| - i
  {
    var s := p + "/" + q;
    SkipJoined(p, q, i);
    var j := Skip(p, i);
    if j < |p| {
      EndJoined(p, q, j);
      var k := End(p, j);
      assert s[j..k] == p[j..k];
      TokensJoinedFrom(p, q, k);
    } else {
      assert s[|p| + 1..] == q;
      TokensShifted(s, q, |p| + 1, Skip(q, 0));
      SkipTwice(q, 0);
      assert Tokens(q, Skip(q, 0)) == Tokens(q, 0);
      assert Tokens(s, i) == Tokens(s, Skip(s, i)) by { SkipTwice(s, i); }
    }
  }

  lemma {:induction false} SkipTwice(path: string, i: nat)
    requires i <= |path|
    ensures Skip(path, Skip(path, i)) == Skip(path, i)
    decreases |path| - i
  {
    if i < |path| && path[i] == '/' { SkipTwice(path, i + 1); }
  }

  lemma {:induction false} EndOfName(s: string, i: nat)
    requires SlashFree(s) && i <= |s|
    ensures End(s, i) == |s|
    decreases |s| - i
  {
    if i < |s| { EndOfName(s, i + 1); }
  }

  /** The tokens of two paths with a slash between them are those of the one and then those
      of the other; a name without a slash is its own token, and nothing has none.  As
      every path is made so, that is all about them. */
  lemma TokensJoined(p: string, q: string)
    ensures Tokens(Path(p, q), 0) == Tokens(p, 0) + Tokens(q, 0)
    ensures SlashFree(p) && p != "" ==> Tokens(p, 0) == [p]
    ensures Tokens("", 0) == []
  {
    TokensJoinedFrom(p, q, 0);
    if SlashFree(p) && p != "" {
      EndOfName(p, 0);
      assert p[0..|p|] == p && Tokens(p, |p|) == [];
    }
  }

  /** A path of names. */
  function Join(names: seq<string>): string {
    if names == [] then "" else Path(Join(names[..|names| - 1]), names[|names| - 1])
  }

  /** Names joined by slashes come apart again. */
  lemma {:induction false} TokensOfJoin(names: seq<string>)
    requires forall k :: 0 <= k < |names| ==> names[k] != "" && SlashFree(names[k])
    ensures Tokens(Join(names), 0) == names
  {
    if names == [] {
      TokensJoined("", "");
    } else {
      var n := |names| - 1;
      TokensOfJoin(names[..n]);
      TokensJoined(Join(names[..n]), names[n]);
      TokensJoined(names[n], "");
    }
  }

  lemma NamesOfPaths(p: string, name: string, q: string)
    requires SlashFree(name) && name != ""
    ensures Tokens(Path(p, Path(name, q)), 0) == Tokens(p, 0) + [name] + Tokens(q, 0)
  {
    TokensJoined(name, q);
    TokensJoined(p, Path(name, q));
    hide Tokens, Path;
  }

  /** A second part of a path goes on from where the first ends; a second slash adds
      nothing. */
  lemma ComponentsJoined(p: string, q: string)
    ensures Components(Path(p, q)) == Normal(Components(p), Tokens(q, 0))
    ensures Components(Path(p, Path("", q))) == Components(Path(p, q))
  {
    TokensJoined(p, q);
    TokensJoined("", q);
    TokensJoined(p, Path("", q));
    NormalSplit([], Tokens(p, 0), Tokens(q, 0));
    hide Tokens, Normal, Path;
    assert [] + Tokens(q, 0) == Tokens(q, 0);
  }

  const HERE := "."
  const UP := ".."

  lemma TokensOfUp(p: string, x: string, up: string, q: string)
    requires SlashFree(x) && x != "" && SlashFree(up) && up != ""
    ensures Tokens(Path(p, Path(x, Path(up, q))), 0) == Tokens(p, 0) + [x, up] + Tokens(q, 0)
  {
    NamesOfPaths(p, x, Path(up, q));
    TokensJoined(up, q);
    hide Tokens, Path, SlashFree;
    assert Tokens(p, 0) + [x] + ([up] + Tokens(q, 0)) == Tokens(p, 0) + [x, up] + Tokens(q, 0);
  }

  /** In a path "." can be left out. */
  lemma ComponentsHere(p: string, here: string, q: string)
    requires here == HERE
    ensures Components(Path(p, Path(here, q))) == Components(Path(p, q))
  {
    NamesOfPaths(p, here, q);
    TokensJoined(p, q);
    NormalCancels([], Tokens(p, 0), here, Tokens(q, 0));
    hide Tokens, Normal, Path;
  }

  /** So can a name with ".." after it. */
  lemma ComponentsUp(p: string, x: string, up: string, q: string)
    requires up == UP && x != "" && SlashFree(x) && Ordinary(x)
    ensures Components(Path(p, Path(x, Path(up, q)))) == Components(Path(p, q))
  {
    TokensOfUp(p, x, up, q);
    TokensJoined(p, q);
    NormalCancels([], Tokens(p, 0), x, Tokens(q, 0));
    hide Tokens, Normal, Path;
  }

  // ---- the two passes

  /** parse: with no array it counts; with one it also stores, at index `count` of the
      moment, every name that fits. */
  method Parse(path: string, names: array?<string>, nnames: nat) returns (r: int)
    requires names != null ==> nnames <= names.Length
    modifies names
    ensures TooLong(Tokens(path, 0)) ==> r == EINVAL
    ensures !TooLong(Tokens(path, 0)) ==>
      r == if nnames != 0 && |Components(path)| > nnames then -1 else |Components(path)|
    ensures !TooLong(Tokens(path, 0)) && names != null ==>
      forall k :: 0 <= k < |Components(path)| && k < nnames ==> names[k] == Components(path)[k]
  {
    var count, pos := 0, 0;
    ghost var stack: seq<string> := [];
    while Skip(path, pos) < |path|
      invariant 0 <= pos <= |path| && count == |stack|
      invariant Normal(stack, Tokens(path, pos)) == Components(path)
      invariant TooLong(Tokens(path, pos)) <==> TooLong(Tokens(path, 0))
      invariant names != null ==> forall k :: 0 <= k < count && k < nnames ==> names[k] == stack[k]
      decreases |path| - pos
    {
      var from := Skip(path, pos);
      var to := End(path, from);
      var token := path[from..to];
      ghost var rest := Tokens(path, to);
      assert Tokens(path, pos) == [token] + rest && ([token] + rest)[1..] == rest;
      if |token| > FS_FILENAME_SIZE - 1 {
        assert ([token] + rest)[0] == token;
        return EINVAL;
      }
      TooLongRest(token, rest);
      if token == ".." && count > 0 {
        count := count - 1;
      } else if token != "." {
        if names != null && count < nnames {
          names[count] := token;
        }
        count := count + 1;
      }
      stack := Push(stack, token);
      pos := to;
    }
    if nnames != 0 && count > nnames {
      return -1;
    }
    return count;
  }

  lemma TooLongRest(token: string, rest: seq<string>)
    requires |token| <= FS_FILENAME_SIZE - 1
    ensures TooLong([token] + rest) <==> TooLong(rest)
  {
    var all := [token] + rest;
    if TooLong(all) {
      var k :| 0 <= k < |all| && |all[k]| > FS_FILENAME_SIZE - 1;
      assert rest[k - 1] == all[k];
    }
    if TooLong(rest) {
      var k :| 0 <= k < |rest| && |rest[k]| > FS_FILENAME_SIZE - 1;
      assert all[k + 1] == rest[k];
    }
  }

  /** The two passes together, as translate makes them: the array holds exactly the
      components, although the depth may pass their number midway. */
  method ParseNames(path: string) returns (names: seq<string>, ok: bool)
    ensures ok <==> !TooLong(Tokens(path, 0))
    ensures ok ==> names == Components(path)
  {
    names := [];
    var n := Parse(path, null, 0);
    if n < 0 {
      return [], false;
    }
    ok := true;
    if n > 0 {
      var stored := new string[n](_ => "");
      var again := Parse(path, stored, n);
      names := stored[..];
    }
  }
}
