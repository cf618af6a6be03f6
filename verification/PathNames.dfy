/** Names of datasets as paths: strtok in DCGroup::create, splitPath and getFullDataPath in DCDataSet. */
module PathNames {
  import opened Options
  import opened FileNames

  /** A link name: one component of a path. */
  predicate IsName(s: string) {
    |s| > 0 && '/' !in s
  }

  ghost predicate AreNames(path: seq<string>) {
    forall i | 0 <= i < |path| :: IsName(path[i])
  }

  function SkipSlashes(s: string): (rest: string)
    ensures |rest| <= |s| && (rest == "" || rest[0] != '/')
  {
    if s != "" && s[0] == '/' then SkipSlashes(s[1..]) else s
  }

  function NameLength(s: string): (n: nat)
    ensures n <= |s| && '/' !in s[..n] && (n < |s| ==> s[n] == '/')
  {
    if s == "" || s[0] == '/' then 0
    else
      var n := NameLength(s[1..]);
      assert s[..n + 1] == [s[0]] + s[1..][..n];
      n + 1
  }

  /** strtok for "/": the next token, and what is left behind the slash that ends it. */
  function Strtok(s: string): (r: (Option<string>, string))
    ensures if r.0.Some? then IsName(r.0.value) && |r.1| < |s| else r.1 == ""
  {
    var rest := SkipSlashes(s);
    if rest == "" then (None, "")
    else
      var n := NameLength(rest);
      (Some(rest[..n]), if n < |rest| then rest[n + 1..] else "")
  }

  function Tokens(s: string): (tokens: seq<string>)
    ensures AreNames(tokens)
    decreases |s|
  {
    var (token, rest) := Strtok(s);
    if token.None? then [] else [token.value] + Tokens(rest)
  }

  function Join(path: seq<string>): string {
    if |path| == 0 then ""
    else if |path| == 1 then path[0]
    else path[0] + "/" + Join(path[1..])
  }

  // ---- Splitting undoes joining -------------------------------------------------------------------

  lemma NameEnds(name: string, rest: string)
    requires IsName(name)
    ensures NameLength(name) == |name| && NameLength(name + "/" + rest) == |name|
    ensures SkipSlashes(name) == name && SkipSlashes(name + "/" + rest) == name + "/" + rest
  {
    var s := name + "/" + rest;
    assert name[..|name|] == name;
    assert s[|name|] == '/' && s[..|name|] == name;
    SlashIn(s, NameLength(s), |name|);
    SlashIn(name, |name|, NameLength(s));
  }

  lemma SlashIn(s: string, n: nat, k: nat)
    ensures k < n <= |s| && s[k] == '/' ==> '/' in s[..n]
  {}

  lemma DigitsAreName(s: string)
    requires |s| > 0 && AllDigits(s)
    ensures IsName(s)
  {}

  lemma TokensOfName(name: string, rest: string)
    requires IsName(name)
    ensures Tokens(name) == [name] && Tokens(name + "/" + rest) == [name] + Tokens(rest)
  {
    NameEnds(name, rest);
    var s := name + "/" + rest;
    assert s[..|name|] == name && s[|name| + 1..] == rest && name[..|name|] == name;
    assert Strtok(s) == (Some(name), rest) && Strtok(name) == (Some(name), "");
    assert Strtok("") == (None, "");
  }

  /** The tokens of joined names are those names. */
  lemma {:induction false} TokensOfJoin(path: seq<string>)
    requires AreNames(path)
    ensures Tokens(Join(path)) == path
  {
    if |path| == 0 {
      assert Strtok("") == (None, "");
    } else {
      TokensOfJoin(path[1..]);
      TokensOfName(path[0], Join(path[1..]));
      assert path == [path[0]] + path[1..];
    }
  }

  /** Different paths have different names. */
  lemma JoinInjective(p: seq<string>, q: seq<string>)
    requires AreNames(p) && AreNames(q) && Join(p) == Join(q)
    ensures p == q
  {
    TokensOfJoin(p);
    TokensOfJoin(q);
  }

  lemma TokensSkip(s: string)
    ensures Tokens("/" + s) == Tokens(s)
  {}

  /** A string is empty, or begins with a slash, or is a name, or is a name and more behind a slash. */
  lemma Head(a: string, b: string)
    ensures a == "" ==> a + "/" + b == "/" + b
    ensures a != "" && a[0] == '/' ==> a == "/" + a[1..] && a + "/" + b == "/" + (a[1..] + "/" + b)
    ensures a != "" && a[0] != '/' && NameLength(a) == |a| ==> IsName(a)
    ensures a != "" && a[0] != '/' && NameLength(a) < |a| ==>
              var name, rest := a[..NameLength(a)], a[NameLength(a) + 1..];
              IsName(name) && a == name + "/" + rest && a + "/" + b == name + "/" + (rest + "/" + b)
  {}

  /** The tokens of two strings with a slash between them. */
  lemma {:induction false} TokensConcat(a: string, b: string)
    ensures Tokens(a + "/" + b) == Tokens(a) + Tokens(b)
    decreases |a|
  {
    hide Tokens, IsName;
    Head(a, b);
    if a == "" {
      TokensSkip(b);
      NoTokens();
    } else if a[0] == '/' {
      var rest := a[1..];
      TokensConcat(rest, b);
      TokensSkip(rest);
      TokensSkip(rest + "/" + b);
    } else if NameLength(a) == |a| {
      TokensOfName(a, b);
    } else {
      var name, rest := a[..NameLength(a)], a[NameLength(a) + 1..];
      TokensOfName(name, rest);
      TokensOfName(name, rest + "/" + b);
      TokensConcat(rest, b);
    }
  }

  lemma NoTokens()
    ensures Tokens("") == []
  {}

  // ---- splitPath and getFullDataPath --------------------------------------------------------------

  /** The group part and the dataset part of a user's name; a name that ends in a slash stays whole. */
  function SplitPath(fullName: string): (string, string)
    requires |fullName| < NPOS
  {
    var pos := RFind(fullName, "/");
    if pos == NPOS || pos == |fullName| - 1 then ("", fullName) else (fullName[..pos], fullName[pos + 1..])
  }

  function GetFullDataPath(fullUserName: string, pathBase: string, id: nat): (string, string)
    requires |fullUserName| < NPOS
  {
    var (path, name) := SplitPath(fullUserName);
    (pathBase + "/" + Dec(id) + (if |path| > 0 then "/" + path else ""), name)
  }

  /** A name that does not end in a slash. */
  predicate IsDataName(fullName: string) {
    0 < |fullName| < NPOS && fullName[|fullName| - 1] != '/'
  }

  /** What splitPath gives for any name: nothing is split off without a slash or with one at the end. */
  lemma SplitExactly(fullName: string)
    requires |fullName| < NPOS
    ensures var (path, name) := SplitPath(fullName);
            if '/' !in fullName || fullName[|fullName| - 1] == '/' then path == "" && name == fullName
            else fullName == path + "/" + name && '/' !in name
  {
    var pos := RFind(fullName, "/");
    NoSlash(fullName, if pos == NPOS then 0 else pos + 1);
    if pos == NPOS {
      assert fullName[0..] == fullName;
    } else {
      assert fullName[pos] == fullName[pos..pos + 1][0] == '/';
      assert fullName == fullName[..pos] + "/" + fullName[pos + 1..];
      assert pos < |fullName| - 1 ==> fullName[|fullName| - 1] == fullName[pos + 1..][|fullName| - 2 - pos];
    }
  }

  /** Splitting takes the last token off. */
  lemma SplitTokens(fullName: string)
    requires IsDataName(fullName)
    ensures IsName(SplitPath(fullName).1)
    ensures Tokens(fullName) == Tokens(SplitPath(fullName).0) + [SplitPath(fullName).1]
  {
    var pos := RFind(fullName, "/");
    var (path, name) := SplitPath(fullName);
    NoSlash(fullName, if pos == NPOS then 0 else pos + 1);
    if pos == NPOS {
      assert fullName[0..] == fullName;
      TokensOfName(fullName, "");
      assert Strtok("") == (None, "");
    } else {
      assert fullName[pos..pos + 1] == "/";
      assert fullName[pos] == fullName[pos..pos + 1][0];
      assert fullName == path + "/" + name;
      TokensConcat(path, name);
      TokensOfName(name, "");
    }
  }

  lemma BaseTokens(pathBase: string, digits: string, path: string)
    requires IsName(pathBase) && IsName(digits)
    ensures Tokens(pathBase + "/" + digits + (if |path| > 0 then "/" + path else "")) == [pathBase, digits] + Tokens(path)
  {
    hide Tokens, IsName;
    var group := pathBase + "/" + digits;
    TokensOfName(pathBase, digits);
    TokensOfName(digits, "");
    assert Tokens(group) == [pathBase, digits];
    hide Strtok, NameLength, SkipSlashes;
    if |path| > 0 {
      TokensConcat(group, path);
      Regroup(group, path);
    } else {
      NoTokens();
      assert group + "" == group;
    }
  }

  lemma Regroup(a: string, b: string)
    ensures a + ("/" + b) == a + "/" + b
  {}

  lemma LastPart()
    ensures SplitPath("fields/E/x") == ("fields/E", "x") && SplitPath("x") == ("", "x")
  {
    SplitExactly("fields/E/x");
    SplitExactly("x");
    var (path, name) := SplitPath("fields/E/x");
    hide SplitPath;
    var s := path + "/" + name;
    assert s == "fields/E/x" && s[8] == '/';
    assert s[|path|] == '/' && s[|path| + 1..] == name;
    assert forall k | 0 <= k < |name| :: s[|path| + 1 + k] == name[k] && name[k] != '/';
    assert |path| == 8;
    assert path == s[..8] && name == s[9..];
    assert s[..8] == "fields/E" && s[9..] == "x";
  }

  /** With and without a group in the user's name. */
  lemma FullPathExample()
    ensures GetFullDataPath("x", "data", 12) == ("data/12", "x")
    ensures GetFullDataPath("fields/E/x", "data", 12) == ("data/12/fields/E", "x")
  {
    LastPart();
    hide SplitPath;
    assert Dec(12) == "12";
    hide Dec;
    assert "data" + "/" + "12" + "" == "data/12" && "data" + "/" + "12" + ("/" + "fields/E") == "data/12/fields/E";
  }

  /** The path of a dataset in the file: the base, the iteration, and the tokens of the user's name. */
  lemma FullPathTokens(fullUserName: string, pathBase: string, id: nat)
    requires IsDataName(fullUserName) && IsName(pathBase)
    ensures var (path, name) := GetFullDataPath(fullUserName, pathBase, id);
            IsName(name) && Tokens(path) + [name] == [pathBase, Dec(id)] + Tokens(fullUserName)
  {
    hide Tokens, Dec, RFind, IsName, SplitPath;
    SplitTokens(fullUserName);
    DigitsAreName(Dec(id));
    BaseTokens(pathBase, Dec(id), SplitPath(fullUserName).0);
  }
}
