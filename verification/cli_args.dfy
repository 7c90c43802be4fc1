/**
 * `arguments` of the PHP publisher: the command-line options, collected into
 * a dictionary. The two POSIX regular expressions it tests are stated as
 * predicates; PHP's `split` and `ereg_replace` with literal patterns as
 * functions.
 */
module CliArgs {
  import opened Common

  predicate IsAlnum(c: char) {
    'a' <= c <= 'z' || 'A' <= c <= 'Z' || '0' <= c <= '9'
  }

  predicate AlnumBetween(a: string, lo: int, hi: int)
    requires 0 <= lo <= hi <= |a|
  {
    forall k :: lo <= k < hi ==> IsAlnum(a[k])
  }

  /** `ereg('--[a-zA-Z0-9]*=.*', $arg)`, which is not anchored: somewhere in
      the argument, `--`, then letters and digits, then `=`. */
  predicate HasLongForm(a: string) {
    exists i, j :: 0 <= i < j < |a| && LongFormMatch(a, i, j)
  }

  /** The pattern matches `a[i..j + 1]`. */
  predicate LongFormMatch(a: string, i: int, j: int) {
    0 <= i && i + 2 <= j < |a| && a[i] == '-' && a[i + 1] == '-' && a[j] == '=' && AlnumBetween(a, i + 2, j)
  }

  /** `ereg('-[a-zA-Z0-9]', $arg)`: somewhere a `-` followed by a letter or digit. */
  predicate HasShortForm(a: string) {
    exists i :: 0 <= i && i + 1 < |a| && a[i] == '-' && IsAlnum(a[i + 1])
  }

  /** `split` on a one-character pattern: the pieces between its occurrences. */
  function SplitAt(s: string, c: char): (ps: seq<string>)
    ensures |ps| >= 1
    decreases |s|
  {
    if s == [] then [[]]
    else
      var rest := SplitAt(s[1..], c);
      if s[0] == c then [[]] + rest else [[s[0]] + rest[0]] + rest[1..]
  }

  function Concat(ps: seq<string>): string
    decreases |ps|
  {
    if ps == [] then [] else ps[0] + Concat(ps[1..])
  }

  /** `ereg_replace($pat, '', $s)` for a literal pattern: every occurrence,
      found left to right without overlap, is removed. */
  function DropAll(s: string, pat: string): string
    requires |pat| > 0
    decreases |s|
  {
    if |s| < |pat| then s
    else if s[..|pat|] == pat then DropAll(s[|pat|..], pat)
    else [s[0]] + DropAll(s[1..], pat)
  }

  /** The key and value one argument contributes, if any. */
  function ParseArg(a: string): Option<(string, string)> {
    if HasLongForm(a) then
      var ps := SplitAt(a, '=');
      Some((DropAll(ps[0], "--"), Concat(ps[1..])))
    else if HasShortForm(a) then Some((DropAll(a, "-"), "true"))
    else None
  }

  /** The dictionary after the arguments have been handled in order. */
  function ArgsOf(argv: seq<string>): map<string, string>
    decreases |argv|
  {
    if argv == [] then map[]
    else
      var m := ArgsOf(argv[..|argv| - 1]);
      match ParseArg(argv[|argv| - 1])
      case None => m
      case Some((k, v)) => m[k := v]
  }

  lemma {:induction false} ConcatSnoc(ps: seq<string>, x: string)
    ensures Concat(ps + [x]) == Concat(ps) + x
    decreases |ps|
  {
    if ps != [] {
      ConcatSnoc(ps[1..], x);
      assert (ps + [x])[1..] == ps[1..] + [x];
    }
  }

  method Arguments(argv: seq<string>) returns (args: map<string, string>)
    ensures args == ArgsOf(argv)
  {
    args := map[];
    var n := 0;
    while n < |argv|
      invariant 0 <= n <= |argv|
      invariant args == ArgsOf(argv[..n])
    {
      var arg := argv[n];
      if HasLongForm(arg) {
        var str := SplitAt(arg, '=');
        var key := DropAll(str[0], "--");
        var value := "";
        var i := 1;
        while i < |str|
          invariant 1 <= i <= |str|
          invariant value == Concat(str[1..i])
        {
          ConcatSnoc(str[1..i], str[i]);
          assert str[1..i + 1] == str[1..i] + [str[i]];
          value := value + str[i];
          i := i + 1;
        }
        assert str[1..|str|] == str[1..];
        args := args[key := value];
      } else if HasShortForm(arg) {
        args := args[DropAll(arg, "-") := "true"];
      }
      assert argv[..n + 1][..n] == argv[..n];
      n := n + 1;
    }
    assert argv[..|argv|] == argv;
  }

  /** All the pieces of a split, joined, are the text without the separator. */
  lemma {:induction false} ConcatSplit(s: string, c: char)
    ensures Concat(SplitAt(s, c)) == DropAll(s, [c])
    decreases |s|
  {
    if s != [] {
      ConcatSplit(s[1..], c);
      var rest := SplitAt(s[1..], c);
      assert s[..1] == [s[0]];
      if s[0] != c {
        assert Concat(rest) == rest[0] + Concat(rest[1..]);
        assert [[s[0]] + rest[0]] + rest[1..] == SplitAt(s, c);
        assert Concat(SplitAt(s, c)) == [s[0]] + rest[0] + Concat(rest[1..]);
      }
    }
  }

  /** The first piece of a split is the text before the first separator, the
      others joined are the text after it with every separator removed. */
  lemma {:induction false} SplitParts(s: string, c: char)
    requires c in s
    ensures var ps, k := SplitAt(s, c), IndexOf(s, c);
      ps[0] == s[..k] && Concat(ps[1..]) == DropAll(s[k + 1..], [c])
    decreases |s|
  {
    var rest := SplitAt(s[1..], c);
    if s[0] == c {
      ConcatSplit(s[1..], c);
    } else {
      assert c in s[1..] by {
        var k := IndexOf(s, c);
        assert s[k] == s[1..][k - 1];
      }
      SplitParts(s[1..], c);
    }
  }

  /** `--name=value` arguments: the key is the text before the first `=` with
      every `--` removed; the value is the rest with every `=` removed. */
  lemma LongFormParts(a: string)
    requires HasLongForm(a)
    ensures '=' in a
    ensures var k := IndexOf(a, '=');
      ParseArg(a) == Some((DropAll(a[..k], "--"), DropAll(a[k + 1..], "=")))
  {
    LongFormHasEquals(a);
    var ps, k := SplitAt(a, '='), IndexOf(a, '=');
    SplitParts(a, '=');
    assert ps[0] == a[..k] && Concat(ps[1..]) == DropAll(a[k + 1..], ['=']);
    LongFormSplit(a);
  }

  lemma LongFormSplit(a: string)
    requires HasLongForm(a)
    ensures var ps := SplitAt(a, '=');
      ParseArg(a) == Some((DropAll(ps[0], "--"), Concat(ps[1..])))
  {
  }

  lemma LongFormHasEquals(a: string)
    requires HasLongForm(a)
    ensures '=' in a
  {
    var i, j :| 0 <= i < j < |a| && LongFormMatch(a, i, j);
    assert a[j] == '=';
  }

  /** Other arguments with a dash before a letter or digit are flags: the key
      is the argument without any `-` and the value is `'true'`. */
  lemma ShortFormParts(a: string)
    requires !HasLongForm(a) && HasShortForm(a)
    ensures ParseArg(a) == Some((DropAll(a, "-"), "true"))
  {
  }

  /** `--k=a=b` sets `k` to `ab`: the second `=` is dropped. */
  lemma ExampleKeyValue()
    ensures ParseArg("--k=a=b") == Some(("k", "ab"))
  {
    var a := "--k=a=b";
    LongFormAt(a, 0, 3);
    LongFormParts(a);
    ExampleIndex();
    ExampleDrops();
    assert a[..3] == "--k" && a[4..] == "a=b";
  }

  lemma ExampleIndex()
    ensures IndexOf("--k=a=b", '=') == 3
  {
    var a := "--k=a=b";
    assert a[1..][1..][1..] == "=a=b";
  }

  lemma ExampleDrops()
    ensures DropAll("--k", "--") == "k" && DropAll("a=b", "=") == "ab"
  {
    assert DropAll("k", "--") == "k";
    assert "--k"[..2] == "--" && "--k"[2..] == "k";
    var b: string := "b";
    assert b[..1] != "=" && b[1..] == [];
    assert DropAll(b, "=") == [b[0]] + DropAll([], "=") == b;
    assert "=b"[..1] == "=" && "=b"[1..] == b;
    assert DropAll("=b", "=") == b;
    assert "a=b"[..1] != "=" && "a=b"[1..] == "=b";
  }

  lemma LongFormAt(a: string, i: int, j: int)
    requires 0 <= i && i + 2 <= j < |a| && a[i] == '-' && a[i + 1] == '-'
    requires a[j] == '=' && AlnumBetween(a, i + 2, j)
    ensures HasLongForm(a)
  {
    assert LongFormMatch(a, i, j);
  }

  predicate SetsKey(a: string, k: string) {
    ParseArg(a).Some? && ParseArg(a).value.0 == k
  }

  /** What each argument contributes, in order. */
  function Contributions(argv: seq<string>): (cs: seq<Option<(string, string)>>)
    ensures |cs| == |argv| && forall i :: 0 <= i < |argv| ==> cs[i] == ParseArg(argv[i])
  {
    seq(|argv|, i requires 0 <= i < |argv| => ParseArg(argv[i]))
  }

  /** The dictionary the contributions build when applied in order. */
  function Collected(cs: seq<Option<(string, string)>>): map<string, string>
    decreases |cs|
  {
    if cs == [] then map[]
    else
      var m := Collected(cs[..|cs| - 1]);
      match cs[|cs| - 1]
      case None => m
      case Some((k, v)) => m[k := v]
  }

  lemma {:induction false} ArgsOfCollected(argv: seq<string>)
    ensures ArgsOf(argv) == Collected(Contributions(argv))
    decreases |argv|
  {
    if argv != [] {
      var init := argv[..|argv| - 1];
      ArgsOfCollected(init);
      assert Contributions(argv)[..|argv| - 1] == Contributions(init);
    }
  }

  lemma {:induction false} LastContributionWins(cs: seq<Option<(string, string)>>, k: string)
    ensures k in Collected(cs) <==> exists i :: 0 <= i < |cs| && cs[i].Some? && cs[i].value.0 == k
    ensures forall i :: (0 <= i < |cs| && cs[i].Some? && cs[i].value.0 == k
                         && (forall j :: i < j < |cs| ==> !(cs[j].Some? && cs[j].value.0 == k)))
                        ==> Collected(cs)[k] == cs[i].value.1
    decreases |cs|
  {
    if cs != [] {
      var init := cs[..|cs| - 1];
      LastContributionWins(init, k);
      assert forall i :: 0 <= i < |init| ==> init[i] == cs[i];
    }
  }

  /** A key is present iff some argument sets it, and its value is the one set
      by the last argument that sets it; other arguments are ignored. */
  lemma LastArgumentWins(argv: seq<string>, k: string)
    ensures k in ArgsOf(argv) <==> exists i :: 0 <= i < |argv| && SetsKey(argv[i], k)
    ensures forall i :: (0 <= i < |argv| && SetsKey(argv[i], k)
                         && (forall j :: i < j < |argv| ==> !SetsKey(argv[j], k)))
                        ==> ArgsOf(argv)[k] == ParseArg(argv[i]).value.1
  {
    var cs := Contributions(argv);
    ArgsOfCollected(argv);
    LastContributionWins(cs, k);
  }
}
