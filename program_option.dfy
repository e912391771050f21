/** The command-line option map (`program_option`): arguments of the form
    `--key=value` are collected into a map; lookups answer from it. */
module ProgramOption {
  import opened Common

  /** Characters that `operator>>` treats as separators (the C locale's `isspace`). */
  predicate IsSpace(c: char)
  {
    c == ' ' || c == '\t' || c == '\n' || c == '\U{0B}' || c == '\U{0C}' || c == '\r'
  }

  /** Index of the first `c` in `s`, or `|s|` when there is none (`std::find`). */
  function Find(s: string, c: char): (k: nat)
    ensures k <= |s|
    ensures forall i :: 0 <= i < k ==> s[i] != c
    ensures k < |s| ==> s[k] == c
  {
    if s == [] then 0 else if s[0] == c then 0 else 1 + Find(s[1..], c)
  }

  /** What `add_option` accepts: at least three characters, a leading `--`
      and an `=` somewhere. The key runs from after `--` to the first `=`,
      the value is everything after that `=`. */
  function SplitOption(str: string): (r: Option<(string, string)>)
    ensures r.Some? <==> |str| >= 3 && str[0] == '-' && str[1] == '-' && '=' in str
    ensures r.Some? ==> str == "--" + r.value.0 + "=" + r.value.1 && '=' !in r.value.0
  {
    if |str| < 3 || str[0] != '-' || str[1] != '-' then None
    else
      var p := Find(str, '=');
      if p == |str| then None
      else
        assert str == str[..2] + str[2..p] + "=" + str[p + 1..];
        Some((str[2..p], str[p + 1..]))
  }

  /** The option map after `add_option(str)`: a later occurrence of a key
      overwrites the earlier value. */
  function AddTo(m: map<string, string>, str: string): map<string, string>
  {
    match SplitOption(str)
    case None => m
    case Some(kv) => m[kv.0 := kv.1]
  }

  /** Feeding `args` to `add_option` in order, stopping at the first one it
      rejects: the map reached and the rejected argument, if any. */
  function Collect(m: map<string, string>, args: seq<string>): (map<string, string>, Option<string>)
    decreases |args|
  {
    if args == [] then (m, None)
    else if SplitOption(args[0]).None? then (m, Some(args[0]))
    else Collect(AddTo(m, args[0]), args[1..])
  }

  /** The whitespace-separated tokens of `s`, as repeated `operator>>`
      extractions return them. */
  function Tokens(s: string): (r: seq<string>)
    decreases |s|
  {
    if s == [] then []
    else if IsSpace(s[0]) then Tokens(s[1..])
    else
      var n := TokenEnd(s, 0);
      [s[..n]] + Tokens(s[n..])
  }

  /** End of the run of non-space characters starting at `i`. */
  function TokenEnd(s: string, i: nat): (n: nat)
    requires i <= |s|
    ensures i <= n <= |s|
    ensures forall k :: i <= k < n ==> !IsSpace(s[k])
    ensures n < |s| ==> IsSpace(s[n])
    decreases |s| - i
  {
    if i == |s| || IsSpace(s[i]) then i else TokenEnd(s, i + 1)
  }

  /** First position at or after `i` that is not a space. */
  function SkipSpace(s: string, i: nat): (n: nat)
    requires i <= |s|
    ensures i <= n <= |s|
    ensures forall k :: i <= k < n ==> IsSpace(s[k])
    ensures n < |s| ==> !IsSpace(s[n])
    decreases |s| - i
  {
    if i == |s| || !IsSpace(s[i]) then i else SkipSpace(s, i + 1)
  }

  lemma {:induction false} TokensSkip(s: string, i: nat)
    requires i <= |s|
    requires forall k :: 0 <= k < i ==> IsSpace(s[k])
    ensures Tokens(s) == Tokens(s[i..])
  {
    if i > 0 {
      assert s[1..][i - 1..] == s[i..];
      TokensSkip(s[1..], i - 1);
    }
  }

  lemma {:induction false} TokenEndShift(s: string, i: nat)
    requires i <= |s|
    ensures TokenEnd(s, i) - i == TokenEnd(s[i..], 0)
    decreases |s| - i
  {
    if i < |s| && !IsSpace(s[i]) {
      TokenEndShift(s, i + 1);
      assert s[i..][1..] == s[i + 1..];
      TokenEndShiftOne(s[i..], 0);
    }
  }

  lemma {:induction false} TokenEndShiftOne(s: string, i: nat)
    requires i < |s|
    ensures TokenEnd(s, i + 1) - 1 == TokenEnd(s[1..], i)
    decreases |s| - i
  {
    if i + 1 < |s| && !IsSpace(s[i + 1]) {
      TokenEndShiftOne(s, i + 1);
    }
  }

  /** The tokens of `s` from position `i` on: the one extracted there, then the rest. */
  lemma {:induction false} TokensAt(s: string, i: nat)
    requires i < |s| && !IsSpace(s[i])
    ensures Tokens(s[i..]) == [s[i..TokenEnd(s, i)]] + Tokens(s[TokenEnd(s, i)..])
  {
    var n := TokenEnd(s, i);
    TokenEndShift(s, i);
    var t := s[i..];
    assert t[0] == s[i];
    assert TokenEnd(t, 0) == n - i;
    assert t[..n - i] == s[i..n];
    assert t[n - i..] == s[n..];
  }

  lemma {:induction false} TokensOfSpaces(s: string, i: nat)
    requires i <= |s|
    requires forall k :: i <= k < |s| ==> IsSpace(s[k])
    ensures Tokens(s[i..]) == []
  {
    TokensSkip(s[i..], |s| - i);
  }

  /** A later occurrence of a key overwrites an earlier one: after a run
      with no rejected argument, the value stored for `k` is the value of
      the last argument naming `k`. */
  lemma {:induction false} LastOccurrenceWins(m: map<string, string>, args: seq<string>, j: nat, k: string, v: string)
    requires j < |args|
    requires Collect(m, args).1 == None
    requires SplitOption(args[j]) == Some((k, v))
    requires forall l :: j < l < |args| ==> SplitOption(args[l]).Some? && SplitOption(args[l]).value.0 != k
    ensures k in Collect(m, args).0 && Collect(m, args).0[k] == v
    decreases |args|
  {
    if j == 0 {
      KeyUntouched(AddTo(m, args[0]), args[1..], k);
    } else {
      LastOccurrenceWins(AddTo(m, args[0]), args[1..], j - 1, k, v);
    }
  }

  lemma {:induction false} KeyUntouched(m: map<string, string>, args: seq<string>, k: string)
    requires forall l :: 0 <= l < |args| ==> SplitOption(args[l]).Some? && SplitOption(args[l]).value.0 != k
    ensures k in Collect(m, args).0 <==> k in m
    ensures k in m ==> Collect(m, args).0[k] == m[k]
    decreases |args|
  {
    if args != [] {
      KeyUntouched(AddTo(m, args[0]), args[1..], k);
    }
  }

  /** `parse` stops at the first argument that `add_option` rejects: the
      options set before it remain, and that argument is the one reported. */
  lemma {:induction false} StopsAtFirstRejected(m: map<string, string>, args: seq<string>, j: nat)
    requires j < |args|
    requires SplitOption(args[j]).None?
    requires forall l :: 0 <= l < j ==> SplitOption(args[l]).Some?
    ensures Collect(m, args) == (Collect(m, args[..j]).0, Some(args[j]))
    decreases |args|
  {
    if j > 0 {
      assert args[1..][..j - 1] == args[..j][1..];
      StopsAtFirstRejected(AddTo(m, args[0]), args[1..], j - 1);
    }
  }

  /** Nothing is rejected exactly when every argument is a well-formed option. */
  lemma {:induction false} CollectAccepts(m: map<string, string>, args: seq<string>)
    ensures Collect(m, args).1.None? <==> forall l :: 0 <= l < |args| ==> SplitOption(args[l]).Some?
    decreases |args|
  {
    if args != [] {
      CollectAccepts(AddTo(m, args[0]), args[1..]);
    }
  }

  lemma {:induction false} CollectSnoc(m: map<string, string>, args: seq<string>, a: string)
    requires Collect(m, args).1.None?
    ensures Collect(m, args + [a]) ==
      if SplitOption(a).None? then (Collect(m, args).0, Some(a)) else (AddTo(Collect(m, args).0, a), None)
    decreases |args|
  {
    if args == [] {
      assert args + [a] == [a];
    } else {
      assert (args + [a])[1..] == args[1..] + [a];
      CollectSnoc(AddTo(m, args[0]), args[1..], a);
    }
  }

  /** The string overload as written: because the loop tests the stream
      before extracting, the last extraction always fails and hands the
      empty string to `add_option`, so the tokens are followed by `""`. */
  function ParseStringAsWritten(s: string): (map<string, string>, Option<string>)
  {
    Collect(map[], Tokens(s) + [""])
  }

  /** As written, the string overload never succeeds. */
  lemma {:induction false} ParseStringAlwaysFails(m: map<string, string>, toks: seq<string>)
    ensures Collect(m, toks + [""]).1.Some?
    decreases |toks|
  {
    if toks == [] {
      assert toks + [""] == [""];
    } else {
      assert (toks + [""])[1..] == toks[1..] + [""];
      if SplitOption(toks[0]).Some? {
        ParseStringAlwaysFails(AddTo(m, toks[0]), toks[1..]);
      }
    }
  }

  /** A concrete witness: `"--a=1"` is a well-formed option, yet the string
      overload rejects the empty token after it. */
  lemma {:induction false} ParseStringRejectsValidInput()
    ensures Tokens("--a=1") == ["--a=1"]
    ensures SplitOption("--a=1") == Some(("a", "1"))
    ensures ParseStringAsWritten("--a=1") == (map["a" := "1"], Some(""))
  {
    var s := "--a=1";
    SingleToken(s);
    OptionA1();
    var toks := [s] + [""];
    assert toks == [s, ""] && toks[1..] == [""];
    assert AddTo(map[], s) == map["a" := "1"];
    assert SplitOption("").None?;
    assert Collect(map["a" := "1"], [""]) == (map["a" := "1"], Some(""));
    assert Collect(map[], toks) == Collect(map["a" := "1"], [""]);
  }

  lemma {:induction false} SingleToken(s: string)
    requires s == "--a=1"
    ensures Tokens(s) == [s]
  {
    assert TokenEnd(s, 5) == 5;
    assert TokenEnd(s, 4) == 5;
    assert TokenEnd(s, 3) == 5;
    assert TokenEnd(s, 2) == 5;
    assert TokenEnd(s, 1) == 5;
    assert TokenEnd(s, 0) == 5;
    assert s[..5] == s && s[5..] == [];
  }

  lemma {:induction false} OptionA1()
    ensures SplitOption("--a=1") == Some(("a", "1"))
  {
    var s := "--a=1";
    assert s[3] == '=';
    assert s[2] != '=' && s[1] != '=' && s[0] != '=';
    assert Find(s, '=') == 3;
    assert s[2..3] == "a" && s[4..] == "1";
  }

  /** The string overload as evidently intended: it succeeds exactly when
      every whitespace-separated token is a well-formed option. */
  function ParseStringIntended(s: string): (r: (map<string, string>, Option<string>))
    ensures r.1.None? <==> forall t :: t in Tokens(s) ==> SplitOption(t).Some?
  {
    CollectAccepts(map[], Tokens(s));
    Collect(map[], Tokens(s))
  }

  class Options {
    var options: map<string, string>
    var errorMsg: string

    constructor ()
      ensures options == map[] && errorMsg == ""
    {
      options := map[];
      errorMsg := "";
    }

    /** `add_option`: store a well-formed `--key=value`, report whether it was one. */
    method AddOption(str: string) returns (ok: bool)
      modifies this`options
      ensures ok <==> SplitOption(str).Some?
      ensures options == AddTo(old(options), str)
    {
      if |str| < 3 || str[0] != '-' || str[1] != '-' {
        return false;
      }
      var pos := Find(str, '=');
      if pos == |str| {
        return false;
      }
      options := options[str[2..pos] := str[pos + 1..]];
      return true;
    }

    /** `parse(argc, argv)`: `av` is `argv[0..argc)`; `av[0]`, the program
        name, is skipped. */
    method Parse(av: seq<string>) returns (ok: bool)
      modifies this
      ensures var args := if |av| == 0 then [] else av[1..];
        && options == Collect(map[], args).0
        && ok == Collect(map[], args).1.None?
        && errorMsg == (if ok then old(errorMsg) else "cannot parse: " + Collect(map[], args).1.value)
    {
      ghost var args := if |av| == 0 then [] else av[1..];
      options := map[];
      var i := 1;
      while i < |av|
        invariant 1 <= i && i - 1 <= |args|
        invariant |av| > 0 ==> i <= |av|
        invariant Collect(map[], args[..i - 1]) == (options, None)
        invariant errorMsg == old(errorMsg)
      {
        var str := av[i];
        CollectAccepts(map[], args[..i - 1]);
        CollectSnoc(map[], args[..i - 1], str);
        assert args[..i - 1] + [str] == args[..i];
        var added := AddOption(str);
        if !added {
          errorMsg := "cannot parse: " + str;
          assert forall l :: 0 <= l < i - 1 ==> args[..i - 1][l] == args[l];
          StopsAtFirstRejected(map[], args, i - 1);
          return false;
        }
        i := i + 1;
      }
      assert args[..i - 1] == args;
      return true;
    }

    /** `parse(const std::string&)`, as written: a `while (in)` loop over
        `operator>>` extractions. The tokens are fed to `add_option`; the
        extraction after the last token fails and yields `""`, which
        `add_option` rejects. */
    method ParseString(s: string) returns (ok: bool)
      modifies this
      ensures options == ParseStringAsWritten(s).0
      ensures ok == ParseStringAsWritten(s).1.None?
      ensures !ok
      ensures errorMsg == "cannot parse: " + ParseStringAsWritten(s).1.value
    {
      options := map[];
      ghost var done: seq<string> := [];
      var pos := 0;
      // `while (in)`: the stream is still good after every extraction that
      // found a token, so the loop ends only through the rejection below
      while true
        invariant pos <= |s|
        invariant Collect(map[], done) == (options, None)
        invariant done + Tokens(s[pos..]) == Tokens(s)
        decreases |s| - pos
      {
        // operator>>: skip separators, then take the run of non-separators;
        // it fails, leaving `str` empty, when nothing is left to extract
        var start := SkipSpace(s, pos);
        var str: string;
        var failed := start == |s|;
        if failed {
          ExtractFails(s, pos);
          str := "";
        } else {
          var stop := TokenEnd(s, start);
          str := s[start..stop];
          ExtractToken(s, pos, done);
          pos := stop;
        }
        var added := AddOption(str);
        if !added {
          errorMsg := "cannot parse: " + str;
          RejectedAt(done, str, if failed then [] else Tokens(s[pos..]), Tokens(s), options);
          return false;
        }
        CollectSnoc(map[], done, str);
        done := done + [str];
      }
    }

    /** `has`: whether the option was given. */
    function Has(name: string): (r: bool)
      reads this
      ensures r <==> name in options
    {
      name in options
    }

    /** `get(name)`: the stored value, or the empty string when absent. */
    function Get(name: string): (r: string)
      reads this
      ensures name in options ==> r == options[name]
      ensures name !in options ==> r == ""
    {
      if name in options then options[name] else ""
    }

    /** `get(name, df)`: the stored value, or `df` when absent. */
    function GetOr(name: string, df: string): (r: string)
      reads this
      ensures name in options ==> r == options[name]
      ensures name !in options ==> r == df
    {
      if name in options then options[name] else df
    }

    /** Typed `get(name, df)`: when the option is present its text is
        extracted over `df` with `operator>>` (`extract`, a parameter: the
        stream conversion is not modelled); when absent `df` is returned
        unchanged. */
    function GetAs<T>(name: string, df: T, extract: (string, T) -> T): (r: T)
      reads this
      ensures name !in options ==> r == df
      ensures name in options ==> r == extract(options[name], df)
    {
      if name in options then extract(options[name], df) else df
    }
  }

  /** An extraction at `pos` that finds only separators: no tokens remain. */
  lemma {:induction false} ExtractFails(s: string, pos: nat)
    requires pos <= |s| && SkipSpace(s, pos) == |s|
    ensures Tokens(s[pos..]) == []
  {
    TokensOfSpaces(s, pos);
  }

  /** An extraction at `pos` that finds a token: it is the next token, so
      appending it to the tokens `done` so far moves `pos` past it. */
  lemma {:induction false} ExtractToken(s: string, pos: nat, done: seq<string>)
    requires pos <= |s| && SkipSpace(s, pos) < |s|
    requires done + Tokens(s[pos..]) == Tokens(s)
    ensures var start := SkipSpace(s, pos);
      var stop := TokenEnd(s, start);
      Tokens(s[pos..]) == [s[start..stop]] + Tokens(s[stop..]) &&
      (done + [s[start..stop]]) + Tokens(s[stop..]) == Tokens(s)
  {
    var start := SkipSpace(s, pos);
    TokensSkip(s[pos..], start - pos);
    assert s[pos..][start - pos..] == s[start..];
    TokensAt(s, start);
    var stop := TokenEnd(s, start);
    assert done + ([s[start..stop]] + Tokens(s[stop..])) == (done + [s[start..stop]]) + Tokens(s[stop..]);
  }

  /** The state in which `ParseString` returns: `done` accepted, `str`
      rejected, and `rest` the tokens not yet extracted. */
  lemma {:induction false} RejectedAt(done: seq<string>, str: string, rest: seq<string>, toks: seq<string>, m: map<string, string>)
    requires Collect(map[], done) == (m, None)
    requires SplitOption(str).None?
    requires str == "" ==> rest == [] && done == toks
    requires str != "" ==> done + [str] + rest == toks
    ensures Collect(map[], toks + [""]) == (m, Some(str))
  {
    CollectSnoc(map[], done, str);
    if str == "" {
      assert toks + [""] == done + [str];
    } else {
      assert toks + [""] == done + [str] + (rest + [""]);
      RejectedStays(map[], done + [str], rest + [""]);
    }
  }

  /** Once an argument is rejected, nothing after it is looked at. */
  lemma {:induction false} RejectedStays(m: map<string, string>, args: seq<string>, rest: seq<string>)
    requires Collect(m, args).1.Some?
    ensures Collect(m, args + rest) == Collect(m, args)
    decreases |args|
  {
    if args != [] {
      assert (args + rest)[1..] == args[1..] + rest;
      if SplitOption(args[0]).Some? {
        RejectedStays(AddTo(m, args[0]), args[1..], rest);
      }
    }
  }
}
