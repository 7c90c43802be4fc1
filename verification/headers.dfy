/**
 * Post-processing of the Cache-Control and Link response headers the proxy
 * passes to the channel manager. The regular expressions that cut a header
 * into directives, links and link parameters are not modelled: their output
 * (each piece already stripped of surrounding white space) is the input here.
 * A Python exception that escapes a parser (`IndexError` on an empty quoted
 * value, `ValueError` on a link without `>`) is a `None` result.
 */
module Headers {
  import opened Common

  /** Python 2 `str.lower()` on one character: ASCII letters only. */
  function LowerChar(c: char): char {
    if 'A' <= c <= 'Z' then (c as int + 32) as char else c
  }

  function Lower(s: string): (r: string)
    ensures |r| == |s| && forall i :: 0 <= i < |s| ==> r[i] == LowerChar(s[i])
  {
    if s == [] then [] else [LowerChar(s[0])] + Lower(s[1..])
  }

  /** Lowering twice is lowering once, so every key a parser produces is
      already in lower case. */
  lemma LowerIdempotent(s: string)
    ensures Lower(Lower(s)) == Lower(s)
  {
  }

  /** `re.sub(r'\\(.)', r'\1', s)`: a backslash followed by any character but
      a newline stands for that character; the scan goes left to right and an
      escaped backslash does not escape what follows it. */
  function Unescape(s: string): string
    decreases |s|
  {
    if |s| >= 2 && s[0] == '\\' && s[1] != '\n' then [s[1]] + Unescape(s[2..])
    else if s == [] then []
    else [s[0]] + Unescape(s[1..])
  }

  /** The quoting a sender applies inside a quoted string: a backslash before
      every `"` and every backslash. */
  function Escape(t: string): string
    decreases |t|
  {
    if t == [] then []
    else if t[0] == '"' || t[0] == '\\' then ['\\', t[0]] + Escape(t[1..])
    else [t[0]] + Escape(t[1..])
  }

  lemma {:induction false} UnescapeEscape(t: string)
    ensures Unescape(Escape(t)) == t
    decreases |t|
  {
    if t != [] {
      UnescapeEscape(t[1..]);
      if t[0] == '"' || t[0] == '\\' {
        assert (['\\', t[0]] + Escape(t[1..]))[2..] == Escape(t[1..]);
      } else {
        assert ([t[0]] + Escape(t[1..]))[1..] == Escape(t[1..]);
      }
    }
  }

  predicate Quoted(s: string) {
    s != [] && s[0] == '"' && s[|s| - 1] == '"'
  }

  /** `_unquotestring`: strip one pair of surrounding double quotes and undo
      the backslash escapes inside; anything else is returned unchanged. The
      empty string raises `IndexError`, which is `None` here. */
  function Unquote(s: string): (r: Option<string>)
    ensures r.None? <==> s == []
    ensures r.Some? && !Quoted(s) ==> r.value == s
  {
    if s == [] then None
    else if Quoted(s) then Some(Unescape(if |s| >= 2 then s[1..|s| - 1] else []))
    else Some(s)
  }

  /** Quoting a string and unquoting it gives the string back. */
  lemma UnquoteQuoted(t: string)
    ensures Unquote("\"" + Escape(t) + "\"") == Some(t)
  {
    var q := "\"" + Escape(t) + "\"";
    assert q[1..|q| - 1] == Escape(t);
    UnescapeEscape(t);
  }

  lemma UnescapeLength(s: string)
    ensures |Unescape(s)| <= |s|
  {
  }

  function Last<T>(s: seq<T>): T
    requires s != []
  {
    s[|s| - 1]
  }

  /** Parse every piece; the first piece that fails makes the whole parse fail. */
  function MapAll<A, B>(xs: seq<A>, f: A -> Option<B>): Option<seq<B>>
    decreases |xs|
  {
    if xs == [] then Some([])
    else match MapAll(xs[..|xs| - 1], f)
      case None => None
      case Some(ys) => if f(xs[|xs| - 1]).None? then None else Some(ys + [f(xs[|xs| - 1]).value])
  }

  lemma {:induction false} MapAllSpec<A, B>(xs: seq<A>, f: A -> Option<B>)
    ensures MapAll(xs, f).None? <==> exists i :: 0 <= i < |xs| && f(xs[i]).None?
    ensures MapAll(xs, f).Some? ==>
      |MapAll(xs, f).value| == |xs| && forall i :: 0 <= i < |xs| ==> MapAll(xs, f).value[i] == f(xs[i]).value
    decreases |xs|
  {
    if xs != [] {
      var init := xs[..|xs| - 1];
      MapAllSpec(init, f);
      assert forall i :: 0 <= i < |init| ==> init[i] == xs[i];
    }
  }

  lemma MapAllStep<A, B>(xs: seq<A>, f: A -> Option<B>, i: nat, ys: seq<B>)
    requires i < |xs| && MapAll(xs[..i], f) == Some(ys) && f(xs[i]).Some?
    ensures MapAll(xs[..i + 1], f) == Some(ys + [f(xs[i]).value])
  {
    assert xs[..i + 1][..i] == xs[..i];
  }

  lemma MapAllFails<A, B>(xs: seq<A>, f: A -> Option<B>, i: nat)
    requires i < |xs| && f(xs[i]).None?
    ensures MapAll(xs, f).None?
  {
    MapAllSpec(xs, f);
  }

  /** A dictionary filled left to right: for a repeated key the last value wins. */
  function Assoc<V>(pairs: seq<(string, V)>): map<string, V>
    decreases |pairs|
  {
    if pairs == [] then map[]
    else Assoc(pairs[..|pairs| - 1])[Last(pairs).0 := Last(pairs).1]
  }

  /** The values given for key `k`, in order. */
  function ValuesAt<V>(pairs: seq<(string, V)>, k: string): seq<V>
    decreases |pairs|
  {
    if pairs == [] then []
    else ValuesAt(pairs[..|pairs| - 1], k) + (if Last(pairs).0 == k then [Last(pairs).1] else [])
  }

  lemma {:induction false} AssocLastWins<V>(pairs: seq<(string, V)>, k: string)
    ensures k in Assoc(pairs) <==> ValuesAt(pairs, k) != []
    ensures k in Assoc(pairs) ==> Assoc(pairs)[k] == Last(ValuesAt(pairs, k))
    decreases |pairs|
  {
    if pairs != [] {
      AssocLastWins(pairs[..|pairs| - 1], k);
    }
  }

  /** One more pair: its key is appended to the order if new, and its value
      replaces any earlier one. */
  lemma TableStep<V>(pairs: seq<(string, V)>, k: string, v: V)
    ensures KeyOrder(pairs + [(k, v)]) == if k in Assoc(pairs) then KeyOrder(pairs) else KeyOrder(pairs) + [k]
    ensures Assoc(pairs + [(k, v)]) == Assoc(pairs)[k := v]
  {
    assert (pairs + [(k, v)])[..|pairs|] == pairs;
    KeyOrderSpec(pairs);
  }

  /** The keys of `pairs` in order of first appearance. */
  function KeyOrder<V>(pairs: seq<(string, V)>): seq<string>
    decreases |pairs|
  {
    if pairs == [] then []
    else
      var ks := KeyOrder(pairs[..|pairs| - 1]);
      if Last(pairs).0 in ks then ks else ks + [Last(pairs).0]
  }

  lemma {:induction false} KeyOrderSpec<V>(pairs: seq<(string, V)>)
    ensures forall k :: k in KeyOrder(pairs) <==> k in Assoc(pairs)
    ensures forall i, j :: 0 <= i < j < |KeyOrder(pairs)| ==> KeyOrder(pairs)[i] != KeyOrder(pairs)[j]
    decreases |pairs|
  {
    if pairs != [] {
      KeyOrderSpec(pairs[..|pairs| - 1]);
    }
  }

  // ---------------------------------------------------------------- Cache-Control

  /** A directive's value: `True` for a bare directive, else its unquoted text. */
  datatype Directive = Flag | Text(text: string)

  /** A `parse_cc` dictionary value: one directive, or the list kept for a
      `force_list` key. */
  datatype CcValue = One(d: Directive) | Many(ds: seq<Directive>)

  type CcTable = map<string, CcValue>

  /** One directive: split at the first `=` (the value may hold more), unquote
      the value; without `=` the directive is bare. The key is lower-cased. */
  function DirectiveOf(param: string): Option<(string, Directive)> {
    if '=' in param then
      var k := IndexOf(param, '=');
      var v := Unquote(param[k + 1..]);
      if v.None? then None else Some((Lower(param[..k]), Text(v.value)))
    else Some((Lower(param), Flag))
  }

  lemma DirectiveAtFirstEquals(a: string, b: string)
    requires '=' !in a
    ensures DirectiveOf(a + "=" + b)
         == if b == [] then None else Some((Lower(a), Text(Unquote(b).value)))
  {
    var p := a + "=" + b;
    assert p[|a|] == '=';
    var k := IndexOf(p, '=');
    if k < |a| {
      assert false;
    }
    assert p[..k] == a && p[k + 1..] == b;
  }

  function Items(v: CcValue): seq<Directive> {
    if v.Many? then v.ds else [v.d]
  }

  /** The dictionary update of one directive. */
  function Add(out: CcTable, attr: string, value: Directive, forceList: set<string>): CcTable {
    if attr in forceList then
      (if attr in out then out[attr := Many(Items(out[attr]) + [value])] else out[attr := Many([value])])
    else out[attr := One(value)]
  }

  function Collect(pairs: seq<(string, Directive)>, forceList: set<string>): CcTable
    decreases |pairs|
  {
    if pairs == [] then map[]
    else Add(Collect(pairs[..|pairs| - 1], forceList), Last(pairs).0, Last(pairs).1, forceList)
  }

  lemma CollectStep(pairs: seq<(string, Directive)>, attr: string, value: Directive, forceList: set<string>)
    ensures Collect(pairs + [(attr, value)], forceList) == Add(Collect(pairs, forceList), attr, value, forceList)
  {
    assert (pairs + [(attr, value)])[..|pairs|] == pairs;
  }

  /** A `force_list` key collects every value given for it, in order; any
      other key keeps the last one. */
  lemma {:induction false} CollectByKey(pairs: seq<(string, Directive)>, forceList: set<string>, k: string)
    ensures k in Collect(pairs, forceList) <==> ValuesAt(pairs, k) != []
    ensures k in Collect(pairs, forceList) && k in forceList ==>
              Collect(pairs, forceList)[k] == Many(ValuesAt(pairs, k))
    ensures k in Collect(pairs, forceList) && k !in forceList ==>
              Collect(pairs, forceList)[k] == One(Last(ValuesAt(pairs, k)))
    decreases |pairs|
  {
    if pairs != [] {
      CollectByKey(pairs[..|pairs| - 1], forceList, k);
    }
  }

  /** What `parse_cc` returns for the directives of one header. */
  function CcOf(params: seq<string>, forceList: set<string>): Option<CcTable> {
    match MapAll(params, DirectiveOf)
    case None => None
    case Some(ds) => Some(Collect(ds, forceList))
  }

  /** `parse_cc`. */
  method ParseCc(params: seq<string>, forceList: set<string>) returns (r: Option<CcTable>)
    ensures r == CcOf(params, forceList)
  {
    var out: CcTable := map[];
    ghost var ds: seq<(string, Directive)> := [];
    var i := 0;
    while i < |params|
      invariant 0 <= i <= |params|
      invariant MapAll(params[..i], DirectiveOf) == Some(ds) && out == Collect(ds, forceList)
    {
      var param := params[i];
      var attr, value;
      if '=' in param {
        var k := IndexOf(param, '=');
        var v := Unquote(param[k + 1..]);
        if v.None? {
          MapAllFails(params, DirectiveOf, i);
          return None;
        }
        attr, value := param[..k], Text(v.value);
      } else {
        attr, value := param, Flag;
      }
      attr := Lower(attr);
      assert DirectiveOf(param) == Some((attr, value));
      MapAllStep(params, DirectiveOf, i, ds);
      CollectStep(ds, attr, value, forceList);
      if attr in forceList {
        if attr in out {
          out := out[attr := Many(Items(out[attr]) + [value])];
        } else {
          out := out[attr := Many([value])];
        }
      } else {
        out := out[attr := One(value)];
      }
      ds := ds + [(attr, value)];
      i := i + 1;
    }
    assert params[..|params|] == params;
    return Some(out);
  }

  /** `parse_cc` fails exactly when some directive has `=` and nothing after it. */
  lemma CcFails(params: seq<string>, forceList: set<string>)
    ensures CcOf(params, forceList).None? <==>
      exists i :: 0 <= i < |params| && '=' in params[i] && params[i][IndexOf(params[i], '=') + 1..] == []
  {
    MapAllSpec(params, DirectiveOf);
  }

  /** A key of the result is the lower-cased name of some directive; its value
      is the last such directive's (or all of them, in order, for a
      `force_list` key), `True` standing for a bare directive. */
  lemma CcByKey(params: seq<string>, forceList: set<string>, k: string)
    requires CcOf(params, forceList).Some?
    ensures var out := CcOf(params, forceList).value;
      var vs := ValuesAt(MapAll(params, DirectiveOf).value, k);
      && (k in out <==> exists i :: 0 <= i < |params| && DirectiveOf(params[i]).Some? && DirectiveOf(params[i]).value.0 == k)
      && (k in out <==> vs != [])
      && (k in out ==> Lower(k) == k)
      && (k in out && k in forceList ==> out[k] == Many(vs))
      && (k in out && k !in forceList ==> out[k] == One(Last(vs)))
  {
    var ds := MapAll(params, DirectiveOf).value;
    MapAllSpec(params, DirectiveOf);
    CollectByKey(ds, forceList, k);
    ValuesAtKey(ds, k);
    if k in CcOf(params, forceList).value {
      var i :| 0 <= i < |ds| && ds[i].0 == k;
      LowerIdempotent(if '=' in params[i] then params[i][..IndexOf(params[i], '=')] else params[i]);
    }
  }

  /** Without `force_list` keys every value is a single directive. */
  lemma CcSingle(params: seq<string>, k: string)
    requires CcOf(params, {}).Some? && k in CcOf(params, {}).value
    ensures CcOf(params, {}).value[k].One?
  {
    CollectByKey(MapAll(params, DirectiveOf).value, {}, k);
  }

  lemma {:induction false} ValuesAtKey<V>(pairs: seq<(string, V)>, k: string)
    ensures ValuesAt(pairs, k) != [] <==> exists i :: 0 <= i < |pairs| && pairs[i].0 == k
    decreases |pairs|
  {
    if pairs != [] {
      var init := pairs[..|pairs| - 1];
      ValuesAtKey(init, k);
      assert forall i :: 0 <= i < |init| ==> init[i] == pairs[i];
    }
  }

  // ---------------------------------------------------------------- Link

  /** The parameters of one link: `None` stands for a bare parameter. */
  type ParamTable = map<string, Option<string>>

  /** `parse_link`'s dictionary, with its keys in insertion order. */
  datatype LinkTable = LinkTable(order: seq<string>, entries: map<string, ParamTable>)

  /** One link parameter, split at the first `=`; the name is lower-cased. */
  function ParamOf(param: string): Option<(string, Option<string>)> {
    if '=' in param then
      var k := IndexOf(param, '=');
      var v := Unquote(param[k + 1..]);
      if v.None? then None else Some((Lower(param[..k]), Some(v.value)))
    else Some((Lower(param), None))
  }

  function ParamsOf(params: seq<string>): Option<ParamTable> {
    match MapAll(params, ParamOf)
    case None => None
    case Some(ps) => Some(Assoc(ps))
  }

  /** `url[1:]` of `link.split(">", 1)`: the text after the first character up
      to the first `>`; a link without `>` raises `ValueError`. */
  function LinkTarget(link: string): Option<string> {
    if '>' in link then
      var url := link[..IndexOf(link, '>')];
      Some(if url == [] then [] else url[1..])
    else None
  }

  lemma LinkTargetBetween(u: string, rest: string)
    requires '>' !in u
    ensures LinkTarget("<" + u + ">" + rest) == Some(u)
  {
    var l := "<" + u + ">" + rest;
    assert l[|u| + 1] == '>';
    var k := IndexOf(l, '>');
    if k < |u| + 1 {
      assert false;
    }
    assert l[..k][1..] == u;
  }

  /** One link: its target and its parameter dictionary, the parameter text
      (after the first `>`) cut into parameters by `splitParams`. */
  function LinkEntryOf(link: string, splitParams: string -> seq<string>): Option<(string, ParamTable)> {
    if '>' !in link then None
    else
      var ps := ParamsOf(splitParams(link[IndexOf(link, '>') + 1..]));
      if ps.None? then None else Some((LinkTarget(link).value, ps.value))
  }

  function LinkEntry(splitParams: string -> seq<string>): string -> Option<(string, ParamTable)> {
    (link: string) => LinkEntryOf(link, splitParams)
  }

  lemma LinkEntryAt(link: string, splitParams: string -> seq<string>, gt: nat)
    requires '>' in link && gt == IndexOf(link, '>')
    ensures var ps := ParamsOf(splitParams(link[gt + 1..]));
      LinkEntry(splitParams)(link)
      == if ps.None? then None else Some((if link[..gt] == [] then [] else link[..gt][1..], ps.value))
  {
  }

  /** What `parse_link` returns for the links of one header. */
  function LinksOf(links: seq<string>, splitParams: string -> seq<string>): Option<LinkTable> {
    match MapAll(links, LinkEntry(splitParams))
    case None => None
    case Some(es) => Some(LinkTable(KeyOrder(es), Assoc(es)))
  }

  /** The inner loop of `parse_link`: the parameter dictionary of one link. */
  method ParseParams(params: seq<string>) returns (r: Option<ParamTable>)
    ensures r == ParamsOf(params)
  {
    var paramDict: ParamTable := map[];
    ghost var ps: seq<(string, Option<string>)> := [];
    var j := 0;
    while j < |params|
      invariant 0 <= j <= |params|
      invariant MapAll(params[..j], ParamOf) == Some(ps) && paramDict == Assoc(ps)
    {
      var param := params[j];
      var name, value;
      if '=' in param {
        var k := IndexOf(param, '=');
        var v := Unquote(param[k + 1..]);
        if v.None? {
          MapAllFails(params, ParamOf, j);
          return None;
        }
        name, value := Lower(param[..k]), Some(v.value);
      } else {
        name, value := Lower(param), None;
      }
      assert ParamOf(param) == Some((name, value));
      MapAllStep(params, ParamOf, j, ps);
      paramDict := paramDict[name := value];
      ps := ps + [(name, value)];
      j := j + 1;
    }
    assert params[..|params|] == params;
    return Some(paramDict);
  }

  /** `parse_link`. */
  method ParseLink(links: seq<string>, splitParams: string -> seq<string>) returns (r: Option<LinkTable>)
    ensures r == LinksOf(links, splitParams)
  {
    var order: seq<string> := [];
    var entries: map<string, ParamTable> := map[];
    ghost var es: seq<(string, ParamTable)> := [];
    var i := 0;
    while i < |links|
      invariant 0 <= i <= |links|
      invariant MapAll(links[..i], LinkEntry(splitParams)) == Some(es)
      invariant order == KeyOrder(es) && entries == Assoc(es)
    {
      var link := links[i];
      if '>' !in link {
        MapAllFails(links, LinkEntry(splitParams), i);
        return None;
      }
      var gt := IndexOf(link, '>');
      var url := link[..gt];
      url := if url == [] then [] else url[1..];
      var paramDict := ParseParams(splitParams(link[gt + 1..]));
      if paramDict.None? {
        LinkEntryAt(link, splitParams, gt);
        MapAllFails(links, LinkEntry(splitParams), i);
        return None;
      }
      LinkEntryAt(link, splitParams, gt);
      MapAllStep(links, LinkEntry(splitParams), i, es);
      TableStep(es, url, paramDict.value);
      if url !in entries {
        order := order + [url];
      }
      entries := entries[url := paramDict.value];
      es := es + [(url, paramDict.value)];
      i := i + 1;
    }
    assert links[..|links|] == links;
    return Some(LinkTable(order, entries));
  }

  /** The order lists every target once and nothing else; a target's
      parameters are those of the last link naming it. */
  lemma LinksByTarget(links: seq<string>, splitParams: string -> seq<string>, url: string)
    requires LinksOf(links, splitParams).Some?
    ensures var t := LinksOf(links, splitParams).value;
      var es := MapAll(links, LinkEntry(splitParams)).value;
      && (forall u :: u in t.order <==> u in t.entries)
      && (forall i, j :: 0 <= i < j < |t.order| ==> t.order[i] != t.order[j])
      && (url in t.entries <==> exists i :: 0 <= i < |links| && LinkTarget(links[i]) == Some(url))
      && (url in t.entries <==> ValuesAt(es, url) != [])
      && (url in t.entries ==> t.entries[url] == Last(ValuesAt(es, url)))
  {
    var es := MapAll(links, LinkEntry(splitParams)).value;
    MapAllSpec(links, LinkEntry(splitParams));
    KeyOrderSpec(es);
    AssocLastWins(es, url);
    ValuesAtKey(es, url);
  }

  /** A link's parameter names are lower-cased, a bare parameter maps to
      `None`, and a repeated name keeps its last value. */
  lemma ParamsByName(params: seq<string>, a: string)
    requires ParamsOf(params).Some?
    ensures var p := ParamsOf(params).value;
      var ps := MapAll(params, ParamOf).value;
      && (a in p <==> exists i :: 0 <= i < |params| && ParamOf(params[i]).Some? && ParamOf(params[i]).value.0 == a)
      && (a in p <==> ValuesAt(ps, a) != [])
      && (a in p ==> Lower(a) == a && p[a] == Last(ValuesAt(ps, a)))
      && (forall i :: 0 <= i < |params| && '=' !in params[i] ==> ParamOf(params[i]) == Some((Lower(params[i]), None)))
  {
    var ps := MapAll(params, ParamOf).value;
    MapAllSpec(params, ParamOf);
    AssocLastWins(ps, a);
    ValuesAtKey(ps, a);
    if a in ParamsOf(params).value {
      var i :| 0 <= i < |ps| && ps[i].0 == a;
      LowerIdempotent(if '=' in params[i] then params[i][..IndexOf(params[i], '=')] else params[i]);
    }
  }
}
