/** The Request class of lib/request.js (lines 137-287): the two lists of parameter
    names a request accepts, the parameters set so far, `setParam` and the setters built
    on it, and the text `getRequestXml` builds when it concatenates strings instead of
    calling the XML builder. Each object of the source (`textParams`, `rawParams`,
    `unknownParams`, the envelope) is a list of members in insertion order. */
module Requests {
  import opened Bytes
  import opened Js
  import Terms
  import ObjectXml

  /** `{name: [value, ...]}`. */
  type Params = seq<(string, seq<JsValue>)>

  /** The parameters whose values are text (lib/request.js:138-145). */
  const TextParamNames: seq<string> := [
    "added_external_id", "added_id", "aggregate", "alert_id", "case_sensitive", "count", "cr",
    "create_cursor", "cursor_id", "cursor_data", "deleted_external_id", "deleted_id", "description",
    "docs", "exact-match", "facet", "facet_size", "fail_if_exists", "file", "finalize", "for", "force",
    "force_precise_results", "force_segment", "from", "full", "group", "group_size", "h", "id", "idif",
    "iterator_id", "len", "message", "offset", "optimize_to", "path", "persistent", "position", "quota",
    "rate2_ordering", "rate_from", "rate_to", "relevance", "return_doc", "return_internal", "sequence_check",
    "sql", "stem-lang", "step_size", "text", "type"]

  /** The parameters whose values are XML (lib/request.js:147). */
  const RawParamNames: seq<string> := ["alert", "query", "list", "ordering"]

  /** The two name lists a request checks parameter names against. */
  datatype ParamNames = ParamNames(text: seq<string>, raw: seq<string>)

  const StandardNames: ParamNames := ParamNames(TextParamNames, RawParamNames)

  /** `_.isArray(v) ? v : [v]`, as the list of values it stands for. */
  function Wrapped(v: JsValue): (r: seq<JsValue>)
    ensures v.Arr? ==> r == v.items
    ensures !v.Arr? ==> r == [v]
  {
    if v.Arr? then v.items else [v]
  }

  /** What `setParam` leaves under its key: the old list, unless `replace` is truthy or
      there is none, followed by the given values. */
  function NewValues(current: Option<seq<JsValue>>, values: JsValue, replace: JsValue): seq<JsValue>
  {
    (if Truthy(replace) || current.None? then [] else current.value) + Wrapped(values)
  }

  /** `_.isPositiveOrZero`: a finite number, at least zero. */
  predicate IsPositiveOrZero(v: JsValue) {
    v.Num? && v.n >= 0
  }

  /** The members `for (i in o)` visits on an object given to the constructor; an array's
      keys are its indices as text. */
  function Entries(o: JsValue): seq<(string, JsValue)>
  {
    match o
    case Obj(members) => members
    case Arr(items) => seq(|items|, i requires 0 <= i < |items| => (IntToString(i), items[i]))
    case _ => []
  }

  /** `o.command` and `o.requestId` on an object given to the constructor. */
  function Property(o: JsValue, name: string): JsValue
  {
    if o.Obj? then Member(o.members, name) else Undefined
  }

  /** The lists after the constructor's loop visits one more entry: a known parameter
      is set through setParam, an unknown one stored as it is, and an object value for a
      known parameter reaches `convertToXml`, which the module does not define. */
  function CollectStep(names: ParamNames, lists: (Params, Params, seq<(string, JsValue)>), k: string, v: JsValue)
    : Result<(Params, Params, seq<(string, JsValue)>)>
  {
    var (text, raw, unknown) := lists;
    if (k in names.text || k in names.raw) && IsObject(v) then
      Throw(ReferenceError("convertToXml is not defined"))
    else if k in names.text then
      Ok((Store(text, k, NewValues(Lookup(text, k), v, Undefined)), raw, unknown))
    else if k in names.raw then
      Ok((text, Store(raw, k, NewValues(Lookup(raw, k), v, Undefined)), unknown))
    else
      Ok((text, raw, Store(unknown, k, v)))
  }

  /** The parameter lists the object form of the constructor builds from the first n
      entries. */
  function Collected(names: ParamNames, entries: seq<(string, JsValue)>, n: nat): Result<(Params, Params, seq<(string, JsValue)>)>
    requires n <= |entries|
  {
    if n == 0 then Ok(([], [], []))
    else match Collected(names, entries, n - 1)
      case Throw(e) => Throw(e)
      case Ok(lists) => CollectStep(names, lists, entries[n - 1].0, entries[n - 1].1)
  }

  lemma {:induction false} CollectedFailureSticks(names: ParamNames, entries: seq<(string, JsValue)>, i: nat, n: nat)
    requires i <= n <= |entries| && Collected(names, entries, i).Throw?
    ensures Collected(names, entries, n) == Collected(names, entries, i)
    decreases n
  {
    if n > i {
      CollectedFailureSticks(names, entries, i, n - 1);
    }
  }

  /** The three lists hold each of `keys` in exactly one place: text parameters under
      their names, XML parameters under theirs, everything else among the unknown ones;
      and no list holds a key twice. */
  ghost predicate Partitioned(names: ParamNames, lists: (Params, Params, seq<(string, JsValue)>), keys: seq<string>)
  {
    var (text, raw, unknown) := lists;
    Distinct(text) && Distinct(raw) && Distinct(unknown) &&
    (forall k :: k in Keys(text) <==> k in keys && k in names.text) &&
    (forall k :: k in Keys(raw) <==> k in keys && k !in names.text && k in names.raw) &&
    (forall k :: k in Keys(unknown) <==> k in keys && k !in names.text && k !in names.raw)
  }

  /** Every entry the object form keeps lands in exactly one list, and no list holds a
      key twice. */
  lemma {:induction false} CollectedPartitionsKeys(names: ParamNames, entries: seq<(string, JsValue)>, n: nat)
    requires n <= |entries| && Collected(names, entries, n).Ok?
    ensures Partitioned(names, Collected(names, entries, n).value, Keys(entries[..n]))
    decreases n
  {
    if n > 0 {
      CollectedPartitionsKeys(names, entries, n - 1);
      assert Keys(entries[..n]) == Keys(entries[..n - 1]) + [entries[n - 1].0];
      CollectStepPartitions(names, Collected(names, entries, n - 1).value, entries[n - 1].0, entries[n - 1].1,
                            Keys(entries[..n - 1]));
    }
  }

  /** One more entry keeps the lists partitioned, its key added. */
  lemma CollectStepPartitions(names: ParamNames, lists: (Params, Params, seq<(string, JsValue)>), k: string, v: JsValue,
                              keys: seq<string>)
    requires Partitioned(names, lists, keys) && CollectStep(names, lists, k, v).Ok?
    ensures Partitioned(names, CollectStep(names, lists, k, v).value, keys + [k])
  {
    var (text, raw, unknown) := lists;
    if k in names.text {
      KeysStore(text, k, NewValues(Lookup(text, k), v, Undefined));
      LookupFindsKeys(text, k);
      StoreKeepsDistinct(text, k, NewValues(Lookup(text, k), v, Undefined));
    } else if k in names.raw {
      KeysStore(raw, k, NewValues(Lookup(raw, k), v, Undefined));
      LookupFindsKeys(raw, k);
      StoreKeepsDistinct(raw, k, NewValues(Lookup(raw, k), v, Undefined));
    } else {
      KeysStore(unknown, k, v);
      LookupFindsKeys(unknown, k);
      StoreKeepsDistinct(unknown, k, v);
    }
  }

  // ---------------------------------------------------------------------------
  // The text of a request

  const RequestOpen: string := "<cps:request xmlns:cps=\"www.clusterpoint.com\">"
  const ContentOpen: string := "<cps:content>"
  const RequestClose: string := "</cps:content></cps:request>"
  const ConversionNamespace: string := " xmlns:js=\"www.clusterpoint.com/wiki/XML_JSON_conversion\""

  /** `"<" + name + ">" + body + "</" + name + ">"`. */
  function Element(name: string, body: string): string
  {
    "<" + name + ">" + body + "</" + name + ">"
  }

  /** A document element: the root tag, marked with the JSON conversion namespace. */
  function Document(root: string, body: string): string
  {
    "<" + root + ConversionNamespace + ">" + body + "</" + root + ">"
  }

  /** A value as it goes into a parameter element: escaped text, or its string as it is. */
  function Text(v: JsValue, escape: bool): string
  {
    if escape then EscapeValue(v) else ToString(v)
  }

  /** One element per value among the first n, all named `name`. */
  function ValuesXml(name: string, values: seq<JsValue>, n: nat, escape: bool): string
    requires n <= |values|
  {
    if n == 0 then "" else ValuesXml(name, values, n - 1, escape) + Element(name, Text(values[n - 1], escape))
  }

  /** The elements of the first n parameters, each value under its parameter's name. */
  function ParamsXml(ps: Params, n: nat, escape: bool): string
    requires n <= |ps|
  {
    if n == 0 then "" else ParamsXml(ps, n - 1, escape) + ValuesXml(ps[n - 1].0, ps[n - 1].1, |ps[n - 1].1|, escape)
  }

  /** The envelope elements of the first n members, each in the `cps` namespace. */
  function EnvelopeXml(env: seq<(string, JsValue)>, n: nat): string
    requires n <= |env|
  {
    if n == 0 then ""
    else
      var (key, v) := env[n - 1];
      EnvelopeXml(env, n - 1) + ValuesXml("cps:" + key, Wrapped(v), |Wrapped(v)|, false)
  }

  /** An unknown parameter is left out unless unknown parameters are allowed or it is one
      of the three that carry documents. */
  predicate Skipped(key: string, allowUnknown: bool, rootXpath: string) {
    !allowUnknown && key != rootXpath && key != "_document" && key != "_id"
  }

  /** The root tag of an unknown parameter's documents: "_document" stands for the
      connection's document root. */
  function RootOf(key: string, rootXpath: string): string
  {
    if key == "_document" then rootXpath else key
  }

  /** One value of an unknown parameter, with the root tag in force before it: the root
      in force after it and its text. A string id goes inside the elements of the id
      xpath, the first of which becomes the root; any other string is a ready document;
      anything else is converted with ObjectToXml. */
  function ItemXml(key: string, root: string, val: JsValue, idXpath: string): Result<(string, string)>
  {
    if key == "_id" && val.Str? then
      var tags := Split(idXpath, '/');
      Ok((tags[0], Document(tags[0], Terms.Nest(tags[1..], val.s))))
    else if val.Str? then
      Ok((root, val.s))
    else match ObjectXml.ObjectXml(val)
      case Throw(e) => Throw(e)
      case Ok(s) => Ok((root, Document(root, s)))
  }

  /** The first n values of an unknown parameter, the root tag carried from each to the
      next. */
  function ItemsRun(key: string, values: seq<JsValue>, n: nat, root: string, idXpath: string): Result<(string, string)>
    requires n <= |values|
  {
    if n == 0 then Ok((root, ""))
    else match ItemsRun(key, values, n - 1, root, idXpath)
      case Throw(e) => Throw(e)
      case Ok((r, out)) =>
        match ItemXml(key, r, values[n - 1], idXpath)
        case Throw(e) => Throw(e)
        case Ok((r', s)) => Ok((r', out + s))
  }

  /** The documents of the first n unknown parameters. */
  function UnknownXml(u: seq<(string, JsValue)>, n: nat, allowUnknown: bool, rootXpath: string, idXpath: string): Result<string>
    requires n <= |u|
  {
    if n == 0 then Ok("")
    else match UnknownXml(u, n - 1, allowUnknown, rootXpath, idXpath)
      case Throw(e) => Throw(e)
      case Ok(pre) =>
        var (key, v) := u[n - 1];
        if Skipped(key, allowUnknown, rootXpath) then Ok(pre)
        else match ItemsRun(key, Wrapped(v), |Wrapped(v)|, RootOf(key, rootXpath), idXpath)
          case Throw(e) => Throw(e)
          case Ok((_, s)) => Ok(pre + s)
  }

  /** The whole request: envelope, text parameters, XML parameters, documents. */
  function RequestXml(env: seq<(string, JsValue)>, text: Params, raw: Params, u: seq<(string, JsValue)>,
                      allowUnknown: bool, rootXpath: string, idXpath: string): Result<string>
  {
    match UnknownXml(u, |u|, allowUnknown, rootXpath, idXpath)
    case Throw(e) => Throw(e)
    case Ok(docs) =>
      Ok(RequestOpen + EnvelopeXml(env, |env|) + ContentOpen + ParamsXml(text, |text|, true)
         + ParamsXml(raw, |raw|, false) + docs + RequestClose)
  }

  /** A member after `if (!_.isArray(x)) x = [x]`. */
  function WrapEntry(e: (string, JsValue)): (string, JsValue)
  {
    if e.1.Arr? then e else (e.0, Arr([e.1]))
  }

  /** Making entries lists in place keeps every key, so no key comes to occur twice. */
  lemma WrappingKeepsDistinct(before: seq<(string, JsValue)>, after: seq<(string, JsValue)>)
    requires |after| == |before|
    requires forall k :: 0 <= k < |after| ==> after[k] == before[k] || after[k] == WrapEntry(before[k])
    ensures Distinct(before) ==> Distinct(after)
  {
    forall k | 0 <= k < |after| ensures after[k].0 == before[k].0 { }
  }

  /** The envelope after getRequestXml: every value a list. */
  function WrapEnvelope(env: seq<(string, JsValue)>): seq<(string, JsValue)>
  {
    seq(|env|, i requires 0 <= i < |env| => WrapEntry(env[i]))
  }

  /** The unknown parameters after a complete getRequestXml: every one not skipped holds a
      list. */
  function WrapUnknown(u: seq<(string, JsValue)>, allowUnknown: bool, rootXpath: string): seq<(string, JsValue)>
  {
    seq(|u|, i requires 0 <= i < |u| => if Skipped(u[i].0, allowUnknown, rootXpath) then u[i] else WrapEntry(u[i]))
  }

  lemma UnknownSkip(u: seq<(string, JsValue)>, i: nat, allowUnknown: bool, rootXpath: string, idXpath: string, out: string)
    requires i < |u| && UnknownXml(u, i, allowUnknown, rootXpath, idXpath) == Ok(out)
    requires Skipped(u[i].0, allowUnknown, rootXpath)
    ensures UnknownXml(u, i + 1, allowUnknown, rootXpath, idXpath) == Ok(out)
  {
  }

  lemma UnknownStep(u: seq<(string, JsValue)>, i: nat, allowUnknown: bool, rootXpath: string, idXpath: string,
                    out: string, res: Result<(string, string)>)
    requires i < |u| && UnknownXml(u, i, allowUnknown, rootXpath, idXpath) == Ok(out)
    requires !Skipped(u[i].0, allowUnknown, rootXpath)
    requires res == ItemsRun(u[i].0, Wrapped(u[i].1), |Wrapped(u[i].1)|, RootOf(u[i].0, rootXpath), idXpath)
    ensures res.Throw? ==> UnknownXml(u, i + 1, allowUnknown, rootXpath, idXpath) == Throw(res.error)
    ensures res.Ok? ==> UnknownXml(u, i + 1, allowUnknown, rootXpath, idXpath) == Ok(out + res.value.1)
  {
  }

  lemma {:induction false} ItemsFailureSticks(key: string, values: seq<JsValue>, i: nat, n: nat, root: string, idXpath: string)
    requires i <= n <= |values| && ItemsRun(key, values, i, root, idXpath).Throw?
    ensures ItemsRun(key, values, n, root, idXpath) == ItemsRun(key, values, i, root, idXpath)
    decreases n
  {
    if n > i {
      ItemsFailureSticks(key, values, i, n - 1, root, idXpath);
    }
  }

  lemma {:induction false} UnknownFailureSticks(u: seq<(string, JsValue)>, i: nat, n: nat, allowUnknown: bool, rootXpath: string, idXpath: string)
    requires i <= n <= |u| && UnknownXml(u, i, allowUnknown, rootXpath, idXpath).Throw?
    ensures UnknownXml(u, n, allowUnknown, rootXpath, idXpath) == UnknownXml(u, i, allowUnknown, rootXpath, idXpath)
    decreases n
  {
    if n > i {
      UnknownFailureSticks(u, i, n - 1, allowUnknown, rootXpath, idXpath);
    }
  }

  // ---------------------------------------------------------------------------
  // What the text promises

  /** A second getRequestXml, on the envelope and the unknown parameters the first one
      left behind, renders the same request: the lists made in place change nothing. */
  lemma RenderingIsStable(env: seq<(string, JsValue)>, text: Params, raw: Params, u: seq<(string, JsValue)>,
                          allowUnknown: bool, rootXpath: string, idXpath: string)
    ensures RequestXml(WrapEnvelope(env), text, raw, WrapUnknown(u, allowUnknown, rootXpath), allowUnknown, rootXpath, idXpath)
         == RequestXml(env, text, raw, u, allowUnknown, rootXpath, idXpath)
  {
    EnvelopeWrapStable(env, |env|);
    UnknownWrapStable(u, |u|, allowUnknown, rootXpath, idXpath);
  }

  lemma {:induction false} EnvelopeWrapStable(env: seq<(string, JsValue)>, n: nat)
    requires n <= |env|
    ensures EnvelopeXml(WrapEnvelope(env), n) == EnvelopeXml(env, n)
    decreases n
  {
    if n > 0 {
      EnvelopeWrapStable(env, n - 1);
      assert WrapEnvelope(env)[n - 1] == WrapEntry(env[n - 1]);
    }
  }

  lemma {:induction false} UnknownWrapStable(u: seq<(string, JsValue)>, n: nat, allowUnknown: bool, rootXpath: string, idXpath: string)
    requires n <= |u|
    ensures UnknownXml(WrapUnknown(u, allowUnknown, rootXpath), n, allowUnknown, rootXpath, idXpath)
         == UnknownXml(u, n, allowUnknown, rootXpath, idXpath)
    decreases n
  {
    if n > 0 {
      UnknownWrapStable(u, n - 1, allowUnknown, rootXpath, idXpath);
      var w := WrapUnknown(u, allowUnknown, rootXpath);
      assert w[n - 1].0 == u[n - 1].0 && Wrapped(w[n - 1].1) == Wrapped(u[n - 1].1);
      UnknownSameStep(w, u, n, allowUnknown, rootXpath, idXpath);
    }
  }

  /** Entries with the same key and the same values, after documents that agree, give
      documents that agree. */
  lemma UnknownSameStep(a: seq<(string, JsValue)>, b: seq<(string, JsValue)>, n: nat,
                        allowUnknown: bool, rootXpath: string, idXpath: string)
    requires 0 < n <= |a| && n <= |b|
    requires UnknownXml(a, n - 1, allowUnknown, rootXpath, idXpath) == UnknownXml(b, n - 1, allowUnknown, rootXpath, idXpath)
    requires a[n - 1].0 == b[n - 1].0 && Wrapped(a[n - 1].1) == Wrapped(b[n - 1].1)
    ensures UnknownXml(a, n, allowUnknown, rootXpath, idXpath) == UnknownXml(b, n, allowUnknown, rootXpath, idXpath)
  {
  }

  /** The unknown parameters getRequestXml does not skip, in order. */
  function Kept(u: seq<(string, JsValue)>, allowUnknown: bool, rootXpath: string): seq<(string, JsValue)>
  {
    if u == [] then []
    else Kept(u[..|u| - 1], allowUnknown, rootXpath)
         + (if Skipped(u[|u| - 1].0, allowUnknown, rootXpath) then [] else [u[|u| - 1]])
  }

  /** The rendering of the first n unknown parameters depends on those n only. */
  lemma {:induction false} UnknownPrefix(a: seq<(string, JsValue)>, b: seq<(string, JsValue)>, n: nat,
                                         allowUnknown: bool, rootXpath: string, idXpath: string)
    requires n <= |a| && n <= |b| && a[..n] == b[..n]
    ensures UnknownXml(a, n, allowUnknown, rootXpath, idXpath) == UnknownXml(b, n, allowUnknown, rootXpath, idXpath)
    decreases n
  {
    if n > 0 {
      assert a[..n - 1] == a[..n][..n - 1] && b[..n - 1] == b[..n][..n - 1];
      UnknownPrefix(a, b, n - 1, allowUnknown, rootXpath, idXpath);
      assert a[n - 1] == a[..n][n - 1];
    }
  }

  /** Skipped parameters add nothing: the documents are those of the kept parameters,
      rendered as if every parameter were allowed. */
  lemma {:induction false} SkippedAddNothing(u: seq<(string, JsValue)>, allowUnknown: bool, rootXpath: string, idXpath: string)
    ensures UnknownXml(u, |u|, allowUnknown, rootXpath, idXpath)
         == UnknownXml(Kept(u, allowUnknown, rootXpath), |Kept(u, allowUnknown, rootXpath)|, true, rootXpath, idXpath)
    decreases |u|
  {
    if u != [] {
      var init := u[..|u| - 1];
      var e := u[|u| - 1];
      var k := Kept(init, allowUnknown, rootXpath);
      SkippedAddNothing(init, allowUnknown, rootXpath, idXpath);
      assert u[..|u| - 1] == init[..|u| - 1];
      UnknownPrefix(u, init, |u| - 1, allowUnknown, rootXpath, idXpath);
      if !Skipped(e.0, allowUnknown, rootXpath) {
        KeptEntryRenders(u, k, allowUnknown, rootXpath, idXpath);
      } else {
        SkippedEntryAddsNothing(u, k, allowUnknown, rootXpath, idXpath);
      }
    }
  }

  /** The last entry of u is kept: it renders the same with every parameter allowed. */
  lemma KeptEntryRenders(u: seq<(string, JsValue)>, k: seq<(string, JsValue)>,
                         allowUnknown: bool, rootXpath: string, idXpath: string)
    requires u != [] && !Skipped(u[|u| - 1].0, allowUnknown, rootXpath)
    requires k == Kept(u[..|u| - 1], allowUnknown, rootXpath)
    requires UnknownXml(u, |u| - 1, allowUnknown, rootXpath, idXpath) == UnknownXml(k, |k|, true, rootXpath, idXpath)
    ensures UnknownXml(u, |u|, allowUnknown, rootXpath, idXpath)
         == UnknownXml(Kept(u, allowUnknown, rootXpath), |Kept(u, allowUnknown, rootXpath)|, true, rootXpath, idXpath)
  {
    KeptLast(u, allowUnknown, rootXpath);
    UnknownKeptStep(u, |u|, allowUnknown, rootXpath, idXpath);
    RenderOneMore(k, u[|u| - 1], rootXpath, idXpath);
  }

  /** With every parameter allowed, one more entry renders after those before it. */
  lemma RenderOneMore(k: seq<(string, JsValue)>, e: (string, JsValue), rootXpath: string, idXpath: string)
    ensures UnknownXml(k + [e], |k| + 1, true, rootXpath, idXpath)
         == AddEntry(UnknownXml(k, |k|, true, rootXpath, idXpath), e, rootXpath, idXpath)
  {
    SnocFacts(k, e);
    UnknownPrefix(k + [e], k, |k|, true, rootXpath, idXpath);
    UnknownKeptStep(k + [e], |k| + 1, true, rootXpath, idXpath);
  }

  lemma KeptLast(u: seq<(string, JsValue)>, allowUnknown: bool, rootXpath: string)
    requires u != [] && !Skipped(u[|u| - 1].0, allowUnknown, rootXpath)
    ensures Kept(u, allowUnknown, rootXpath) == Kept(u[..|u| - 1], allowUnknown, rootXpath) + [u[|u| - 1]]
  {
  }

  lemma SnocFacts<T>(k: seq<T>, e: T)
    ensures |k + [e]| == |k| + 1 && (k + [e])[|k|] == e && (k + [e])[..|k|] == k[..|k|]
  {
    assert (k + [e])[..|k|] == k;
  }

  /** The documents after one more entry that is not skipped. */
  function AddEntry(pre: Result<string>, e: (string, JsValue), rootXpath: string, idXpath: string): Result<string>
  {
    match pre
    case Throw(err) => Throw(err)
    case Ok(p) =>
      match ItemsRun(e.0, Wrapped(e.1), |Wrapped(e.1)|, RootOf(e.0, rootXpath), idXpath)
      case Throw(err) => Throw(err)
      case Ok((_, s)) => Ok(p + s)
  }

  lemma UnknownKeptStep(x: seq<(string, JsValue)>, n: nat, allowUnknown: bool, rootXpath: string, idXpath: string)
    requires 0 < n <= |x| && !Skipped(x[n - 1].0, allowUnknown, rootXpath)
    ensures UnknownXml(x, n, allowUnknown, rootXpath, idXpath)
         == AddEntry(UnknownXml(x, n - 1, allowUnknown, rootXpath, idXpath), x[n - 1], rootXpath, idXpath)
  {
  }

  /** The last entry of u is skipped: it adds nothing and is not kept. */
  lemma SkippedEntryAddsNothing(u: seq<(string, JsValue)>, k: seq<(string, JsValue)>,
                                allowUnknown: bool, rootXpath: string, idXpath: string)
    requires u != [] && Skipped(u[|u| - 1].0, allowUnknown, rootXpath)
    requires k == Kept(u[..|u| - 1], allowUnknown, rootXpath)
    requires UnknownXml(u, |u| - 1, allowUnknown, rootXpath, idXpath) == UnknownXml(k, |k|, true, rootXpath, idXpath)
    ensures UnknownXml(u, |u|, allowUnknown, rootXpath, idXpath)
         == UnknownXml(Kept(u, allowUnknown, rootXpath), |Kept(u, allowUnknown, rootXpath)|, true, rootXpath, idXpath)
  {
    assert Kept(u, allowUnknown, rootXpath) == k + [];
    assert k + [] == k;
  }

  /** Only a string id moves the root tag: the values of any other parameter all go
      under the root the parameter started with. */
  lemma {:induction false} OnlyIdsMoveTheRoot(key: string, values: seq<JsValue>, n: nat, root: string, idXpath: string)
    requires key != "_id" && n <= |values| && ItemsRun(key, values, n, root, idXpath).Ok?
    ensures ItemsRun(key, values, n, root, idXpath).value.0 == root
    decreases n
  {
    if n > 0 {
      OnlyIdsMoveTheRoot(key, values, n - 1, root, idXpath);
    }
  }

  /** A document object stored under "_document" goes under the connection's root tag. */
  lemma DocumentGoesUnderRoot(d: JsValue, rootXpath: string, idXpath: string)
    requires d.Obj? && ObjectXml.ObjectXml(d).Ok?
    ensures UnknownXml([("_document", d)], 1, false, rootXpath, idXpath)
         == Ok(Document(rootXpath, ObjectXml.ObjectXml(d).value))
  {
    var x := Document(rootXpath, ObjectXml.ObjectXml(d).value);
    assert ItemXml("_document", rootXpath, d, idXpath) == Ok((rootXpath, x));
    assert ItemsRun("_document", [d], 0, rootXpath, idXpath) == Ok((rootXpath, ""));
    assert "" + x == x;
    assert ItemsRun("_document", [d], 1, rootXpath, idXpath) == Ok((rootXpath, x));
  }

  /** A string id goes inside the elements of the id xpath: with the xpath "a/b" the id
      s becomes `<a xmlns:js="...">` `<b>s</b>` `</a>`, whatever root was in force. */
  lemma IdUnderIdXpath(s: string, first: string, second: string, rootXpath: string)
    requires '/' !in first && '/' !in second
    ensures UnknownXml([("_id", Str(s))], 1, false, rootXpath, first + "/" + second)
         == Ok(Document(first, Element(second, s)))
  {
    SplitTwo(first, second, '/');
    assert first + "/" + second == first + ['/'] + second;
    var tags := [first, second];
    assert tags[1..] == [second] && [second][1..] == [];
    assert Terms.Nest([second], s) == "<" + second + ">" + s + "</" + second + ">";
    var x := Document(first, Element(second, s));
    assert Terms.Nest([], s) == s;
    assert ItemXml("_id", "_id", Str(s), first + "/" + second) == Ok((first, x));
    assert ItemsRun("_id", [Str(s)], 0, "_id", first + "/" + second) == Ok(("_id", ""));
    assert "" + x == x;
    assert ItemsRun("_id", [Str(s)], 1, "_id", first + "/" + second) == Ok((first, x));
  }

  /** A value the document conversion accepts: an object all of whose keys are tag names
      and whose values are supported, an empty array, or a value that is not an object. */
  predicate Renderable(v: JsValue) {
    (v.Obj? ==> ObjectXml.Convertible(v)) && (v.Arr? ==> v.items == [])
  }

  /** An unknown parameter that renders: skipped, or every one of its values renders. */
  predicate EntryRenderable(e: (string, JsValue), allowUnknown: bool, rootXpath: string) {
    Skipped(e.0, allowUnknown, rootXpath) || forall j :: 0 <= j < |Wrapped(e.1)| ==> Renderable(Wrapped(e.1)[j])
  }

  lemma ItemXmlOk(key: string, root: string, val: JsValue, idXpath: string)
    ensures ItemXml(key, root, val, idXpath).Ok? <==> Renderable(val)
  {
    if val.Obj? {
      ObjectXml.ObjectXmlOk(val);
    }
  }

  lemma {:induction false} ItemsRunOk(key: string, values: seq<JsValue>, n: nat, root: string, idXpath: string)
    requires n <= |values|
    ensures ItemsRun(key, values, n, root, idXpath).Ok? <==> forall j :: 0 <= j < n ==> Renderable(values[j])
    decreases n
  {
    if n > 0 {
      ItemsRunOk(key, values, n - 1, root, idXpath);
      var prev := ItemsRun(key, values, n - 1, root, idXpath);
      if prev.Ok? {
        ItemXmlOk(key, prev.value.0, values[n - 1], idXpath);
      }
    }
  }

  lemma {:induction false} UnknownXmlOk(u: seq<(string, JsValue)>, n: nat, allowUnknown: bool, rootXpath: string, idXpath: string)
    requires n <= |u|
    ensures UnknownXml(u, n, allowUnknown, rootXpath, idXpath).Ok? <==>
            forall i :: 0 <= i < n ==> EntryRenderable(u[i], allowUnknown, rootXpath)
    decreases n
  {
    if n > 0 {
      UnknownXmlOk(u, n - 1, allowUnknown, rootXpath, idXpath);
      var (key, v) := u[n - 1];
      ItemsRunOk(key, Wrapped(v), |Wrapped(v)|, RootOf(key, rootXpath), idXpath);
    }
  }

  /** getRequestXml fails exactly when a parameter it renders holds a value the document
      conversion refuses; the envelope and the parameters never make it fail. */
  lemma RequestFailsExactly(env: seq<(string, JsValue)>, text: Params, raw: Params, u: seq<(string, JsValue)>,
                            allowUnknown: bool, rootXpath: string, idXpath: string)
    ensures RequestXml(env, text, raw, u, allowUnknown, rootXpath, idXpath).Ok? <==>
            forall i :: 0 <= i < |u| ==> EntryRenderable(u[i], allowUnknown, rootXpath)
  {
    UnknownXmlOk(u, |u|, allowUnknown, rootXpath, idXpath);
  }

  /** Text parameters are escaped and XML parameters are not: a text value holds no
      markup and unescapes to the value's string, an XML value goes in as it is. */
  lemma ParamValueText(name: string, v: JsValue)
    ensures ValuesXml(name, [v], 1, true) == Element(name, Escape(LodashString(v)))
    ensures Unescape(Escape(LodashString(v))) == LodashString(v)
    ensures forall i :: 0 <= i < |Escape(LodashString(v))| ==> Escape(LodashString(v))[i] != '<'
    ensures ValuesXml(name, [v], 1, false) == Element(name, ToString(v))
  {
    EscapeRoundTrip(LodashString(v));
    EscapeIsInert(LodashString(v));
  }

  /** setParam without replace adds to what the parameter holds: two calls leave the
      values of both, in order. */
  lemma SetParamAccumulates(ps: Params, key: string, a: JsValue, b: JsValue, replace: JsValue)
    ensures var once := Store(ps, key, NewValues(Lookup(ps, key), a, replace));
            var twice := Store(once, key, NewValues(Lookup(once, key), b, Undefined));
            Lookup(twice, key) == Some(NewValues(Lookup(ps, key), a, replace) + Wrapped(b))
  {
    var once := Store(ps, key, NewValues(Lookup(ps, key), a, replace));
    LookupStore(ps, key, NewValues(Lookup(ps, key), a, replace), key);
    LookupStore(once, key, NewValues(Lookup(once, key), b, Undefined), key);
  }

  /** setParam with replace forgets what earlier calls set: the parameter holds exactly
      the new values, in the place it had. */
  lemma ReplaceForgets(ps: Params, key: string, a: JsValue, b: JsValue, replace: JsValue)
    requires Truthy(replace)
    ensures var once := Store(ps, key, NewValues(Lookup(ps, key), a, Undefined));
            Store(once, key, NewValues(Lookup(once, key), b, replace)) == Store(ps, key, Wrapped(b))
  {
    var once := Store(ps, key, NewValues(Lookup(ps, key), a, Undefined));
    assert NewValues(Lookup(once, key), b, replace) == Wrapped(b);
    StoreTwice(ps, key, NewValues(Lookup(ps, key), a, Undefined), Wrapped(b));
  }

  /** `for (var i in values) this.textParams[key].push(values[i])`: the values go on the
      end of the list, in order (lib/request.js:274-276). */
  method Extend(list: seq<JsValue>, items: seq<JsValue>) returns (r: seq<JsValue>)
    ensures r == list + items
  {
    r := list;
    var i := 0;
    while i < |items|
      invariant 0 <= i <= |items|
      invariant r == list + items[..i]
    {
      r := r + [items[i]];
      i := i + 1;
    }
    assert items[..|items|] == items;
  }

  /** The body of setParam once the list is chosen (lib/request.js:271-276): a fresh list
      when `replace` is truthy or the parameter is not set, then the values pushed on it. */
  method AddValues(ps: Params, key: string, values: JsValue, replace: JsValue) returns (r: Params)
    ensures r == Store(ps, key, NewValues(Lookup(ps, key), values, replace))
  {
    var current := Lookup(ps, key);
    var list: seq<JsValue> := if Truthy(replace) || current.None? then [] else current.value;
    list := Extend(list, Wrapped(values));
    r := Store(ps, key, list);
  }

  /** Storing a parameter under a listed name keeps every key listed and each key once. */
  lemma StoreKeepsNames(ps: Params, key: string, list: seq<JsValue>, names: seq<string>)
    requires key in names
    ensures (forall k :: k in Keys(ps) ==> k in names) ==> forall k :: k in Keys(Store(ps, key, list)) ==> k in names
    ensures Distinct(ps) ==> Distinct(Store(ps, key, list))
  {
    KeysStore(ps, key, list);
    StoreKeepsDistinct(ps, key, list);
  }

  // ---------------------------------------------------------------------------
  // Rendering loops

  /** `for (j in list) doc += "<" + name + ">" + text + "</" + name + ">"`: the inner loop
      over one parameter's values (lib/request.js:199-207, 210-218, 219-227). */
  method AppendValues(doc: string, name: string, values: seq<JsValue>, escape: bool) returns (r: string)
    ensures r == doc + ValuesXml(name, values, |values|, escape)
  {
    r := doc;
    var j := 0;
    while j < |values|
      invariant 0 <= j <= |values|
      invariant r == doc + ValuesXml(name, values, j, escape)
    {
      var e := Element(name, Text(values[j], escape));
      ValuesStep(doc, r, e, name, values, j, escape);
      r := r + e;
      j := j + 1;
    }
  }

  lemma ValuesStep(doc: string, r: string, e: string, name: string, values: seq<JsValue>, j: nat, escape: bool)
    requires j < |values| && r == doc + ValuesXml(name, values, j, escape)
    requires e == Element(name, Text(values[j], escape))
    ensures r + e == doc + ValuesXml(name, values, j + 1, escape)
  {
    assert ValuesXml(name, values, j + 1, escape) == ValuesXml(name, values, j, escape) + e;
    AppendAssoc(doc, ValuesXml(name, values, j, escape), e);
  }

  /** The outer loop over the text or the XML parameters (lib/request.js:208-227). */
  method AppendParams(doc: string, ps: Params, escape: bool) returns (r: string)
    ensures r == doc + ParamsXml(ps, |ps|, escape)
  {
    r := doc;
    var i := 0;
    while i < |ps|
      invariant 0 <= i <= |ps|
      invariant r == doc + ParamsXml(ps, i, escape)
    {
      var next := AppendValues(r, ps[i].0, ps[i].1, escape);
      ParamsStep(doc, r, next, ps, i, escape);
      r := next;
      i := i + 1;
    }
  }

  lemma ParamsStep(doc: string, r: string, next: string, ps: Params, i: nat, escape: bool)
    requires i < |ps| && r == doc + ParamsXml(ps, i, escape)
    requires next == r + ValuesXml(ps[i].0, ps[i].1, |ps[i].1|, escape)
    ensures next == doc + ParamsXml(ps, i + 1, escape)
  {
    var v := ValuesXml(ps[i].0, ps[i].1, |ps[i].1|, escape);
    assert ParamsXml(ps, i + 1, escape) == ParamsXml(ps, i, escape) + v;
    AppendAssoc(doc, ParamsXml(ps, i, escape), v);
  }

  /** The body of the loop over the unknown parameters, on the list of entries: the
      entries as the loop leaves them (every rendered one made a list) and the documents. */
  method RenderUnknown(u: seq<(string, JsValue)>, allowUnknown: bool, rootXpath: string, idXpath: string)
    returns (r: Result<string>, ps: seq<(string, JsValue)>)
    ensures r == UnknownXml(u, |u|, allowUnknown, rootXpath, idXpath)
    ensures r.Ok? ==> ps == WrapUnknown(u, allowUnknown, rootXpath)
    ensures |ps| == |u|
    ensures forall k :: 0 <= k < |ps| ==> ps[k] == u[k] || ps[k] == WrapEntry(u[k])
  {
    ps := u;
    var out := "";
    var i := 0;
    while i < |ps|
      invariant i <= |ps| && RenderedUpTo(u, ps, i, allowUnknown, rootXpath)
      invariant UnknownXml(u, i, allowUnknown, rootXpath, idXpath) == Ok(out)
    {
      var res, next := RenderEntry(u, allowUnknown, rootXpath, idXpath, i, ps, out);
      RenderedStep(u, ps, i, allowUnknown, rootXpath);
      ps := next;
      if res.Throw? {
        RenderedEither(u, ps, i + 1, allowUnknown, rootXpath);
        return res, ps;
      }
      out := res.value;
      i := i + 1;
    }
    RenderedAll(u, ps, allowUnknown, rootXpath);
    return Ok(out), ps;
  }

  /** The entries as that loop leaves them after i rounds: the first i made lists unless
      skipped, the others as they were. */
  ghost predicate RenderedUpTo(u: seq<(string, JsValue)>, ps: seq<(string, JsValue)>, i: nat,
                               allowUnknown: bool, rootXpath: string)
  {
    |ps| == |u| && i <= |u| &&
    (forall k :: 0 <= k < i ==> ps[k] == if Skipped(u[k].0, allowUnknown, rootXpath) then u[k] else WrapEntry(u[k])) &&
    (forall k :: i <= k < |u| ==> ps[k] == u[k])
  }

  lemma RenderedStep(u: seq<(string, JsValue)>, ps: seq<(string, JsValue)>, i: nat, allowUnknown: bool, rootXpath: string)
    requires i < |u| && RenderedUpTo(u, ps, i, allowUnknown, rootXpath)
    ensures ps[i] == u[i]
    ensures RenderedUpTo(u, ps[i := if Skipped(u[i].0, allowUnknown, rootXpath) then u[i] else WrapEntry(u[i])],
                         i + 1, allowUnknown, rootXpath)
  {
  }

  lemma RenderedEither(u: seq<(string, JsValue)>, ps: seq<(string, JsValue)>, i: nat, allowUnknown: bool, rootXpath: string)
    requires RenderedUpTo(u, ps, i, allowUnknown, rootXpath)
    ensures |ps| == |u| && forall k :: 0 <= k < |ps| ==> ps[k] == u[k] || ps[k] == WrapEntry(u[k])
  {
  }

  lemma RenderedAll(u: seq<(string, JsValue)>, ps: seq<(string, JsValue)>, allowUnknown: bool, rootXpath: string)
    requires RenderedUpTo(u, ps, |u|, allowUnknown, rootXpath)
    ensures ps == WrapUnknown(u, allowUnknown, rootXpath)
    ensures forall k :: 0 <= k < |ps| ==> ps[k] == u[k] || ps[k] == WrapEntry(u[k])
  {
  }


  /** One pass of that loop: the i-th entry made a list unless it is skipped, and the
      documents so far extended by its values' documents. */
  method RenderEntry(u: seq<(string, JsValue)>, allowUnknown: bool, rootXpath: string, idXpath: string,
                     i: nat, ps: seq<(string, JsValue)>, out: string)
    returns (r: Result<string>, ps': seq<(string, JsValue)>)
    requires i < |u| == |ps| && ps[i] == u[i]
    requires UnknownXml(u, i, allowUnknown, rootXpath, idXpath) == Ok(out)
    ensures r == UnknownXml(u, i + 1, allowUnknown, rootXpath, idXpath)
    ensures r.Throw? ==> r == UnknownXml(u, |u|, allowUnknown, rootXpath, idXpath)
    ensures ps' == ps[i := if Skipped(u[i].0, allowUnknown, rootXpath) then u[i] else WrapEntry(u[i])]
  {
    ps' := ps;
    var (key, v) := ps[i];
    if Skipped(key, allowUnknown, rootXpath) {
      UnknownSkip(u, i, allowUnknown, rootXpath, idXpath, out);
      return Ok(out), ps';
    }
    var root := RootOf(key, rootXpath);
    if !v.Arr? {
      ps' := ps'[i := (key, Arr([v]))];
    }
    assert ps'[i].1.items == Wrapped(v);
    var res := AppendItems(key, ps'[i].1.items, root, idXpath);
    UnknownStep(u, i, allowUnknown, rootXpath, idXpath, out, res);
    if res.Throw? {
      UnknownFailureSticks(u, i + 1, |u|, allowUnknown, rootXpath, idXpath);
      return Throw(res.error), ps';
    }
    return Ok(out + res.value.1), ps';
  }

  /** The envelope with its first i members made lists. */
  function WrapPrefix(env: seq<(string, JsValue)>, i: nat): seq<(string, JsValue)>
  {
    seq(|env|, k requires 0 <= k < |env| => if k < i then WrapEntry(env[k]) else env[k])
  }

  lemma WrapPrefixAt(env: seq<(string, JsValue)>, i: nat)
    requires i < |env|
    ensures WrapPrefix(env, i)[i] == env[i]
  {
  }

  lemma WrapPrefixStep(env: seq<(string, JsValue)>, i: nat)
    requires i < |env|
    ensures WrapPrefix(env, i)[i := WrapEntry(env[i])] == WrapPrefix(env, i + 1)
  {
  }

  lemma WrapPrefixAll(env: seq<(string, JsValue)>)
    ensures WrapPrefix(env, |env|) == WrapEnvelope(env)
  {
  }

  lemma EnvelopeStep(doc: string, before: string, after: string, env: seq<(string, JsValue)>, i: nat, items: seq<JsValue>)
    requires i < |env| && items == Wrapped(env[i].1)
    requires before == doc + EnvelopeXml(env, i)
    requires after == before + ValuesXml("cps:" + env[i].0, items, |items|, false)
    ensures after == doc + EnvelopeXml(env, i + 1)
  {
    var v := ValuesXml("cps:" + env[i].0, items, |items|, false);
    assert EnvelopeXml(env, i + 1) == EnvelopeXml(env, i) + v;
    AppendAssoc(doc, EnvelopeXml(env, i), v);
  }

  /** `if (!Array.isArray(envelopeParams[i])) envelopeParams[i] = [envelopeParams[i]]`. */
  method WrapInPlace(envelope: array<(string, JsValue)>, i: nat) returns (items: seq<JsValue>)
    requires i < envelope.Length
    modifies envelope
    ensures envelope[..] == old(envelope[..])[i := WrapEntry(old(envelope[i]))]
    ensures items == Wrapped(old(envelope[i]).1)
  {
    var (key, v) := envelope[i];
    if !v.Arr? {
      envelope[i] := (key, Arr([v]));
    }
    items := Wrapped(v);
  }

  /** The envelope loop (lib/request.js:191-201): each value is made a list in place and
      each of its items becomes an element in the `cps` namespace. */
  method AppendEnvelope(doc: string, envelope: array<(string, JsValue)>) returns (r: string)
    modifies envelope
    ensures envelope[..] == WrapEnvelope(old(envelope[..]))
    ensures r == doc + EnvelopeXml(old(envelope[..]), envelope.Length)
  {
    ghost var env := envelope[..];
    r := doc;
    var i := 0;
    while i < envelope.Length
      invariant 0 <= i <= envelope.Length == |env|
      invariant envelope[..] == WrapPrefix(env, i)
      invariant r == doc + EnvelopeXml(env, i)
    {
      r := AppendEnvelopeEntry(doc, r, envelope, i, env);
      i := i + 1;
    }
    WrapPrefixAll(env);
  }

  /** One round of the envelope loop: entry i is wrapped in place and its elements are
      appended. */
  method AppendEnvelopeEntry(doc: string, r: string, envelope: array<(string, JsValue)>, i: nat,
                             ghost env: seq<(string, JsValue)>) returns (r': string)
    requires i < envelope.Length == |env|
    requires envelope[..] == WrapPrefix(env, i) && r == doc + EnvelopeXml(env, i)
    modifies envelope
    ensures envelope[..] == WrapPrefix(env, i + 1)
    ensures r' == doc + EnvelopeXml(env, i + 1)
  {
    WrapPrefixAt(env, i);
    var key := envelope[i].0;
    var items := WrapInPlace(envelope, i);
    WrapPrefixStep(env, i);
    r' := AppendValues(r, "cps:" + key, items, false);
    EnvelopeStep(doc, r, r', env, i, items);
  }

  /** The loop over one unknown parameter's values (lib/request.js:230-253), the root
      tag carried from each value to the next. */
  method AppendItems(key: string, values: seq<JsValue>, root: string, idXpath: string) returns (r: Result<(string, string)>)
    ensures r == ItemsRun(key, values, |values|, root, idXpath)
  {
    var cur := root;
    var out := "";
    var j := 0;
    while j < |values|
      invariant 0 <= j <= |values|
      invariant ItemsRun(key, values, j, root, idXpath) == Ok((cur, out))
    {
      var val := values[j];
      if key == "_id" && val.Str? {
        var tags := Split(idXpath, '/');
        cur := tags[0];
        var wrapped := Terms.NestTags(tags[1..], val.s);
        out := out + Document(cur, wrapped);
      } else if val.Str? {
        out := out + val.s;
      } else {
        var s := ObjectXml.ObjectToXml(val);
        if s.Throw? {
          ItemsFailureSticks(key, values, j + 1, |values|, root, idXpath);
          return Throw(s.error);
        }
        out := out + Document(cur, s.value);
      }
      j := j + 1;
    }
    return Ok((cur, out));
  }

  // ---------------------------------------------------------------------------
  // The class

  class Request {
    const validTextParamNames: seq<string>
    const validRawParamNames: seq<string>
    var command: JsValue
    var requestId: JsValue
    var allowUnknownParams: bool
    var textParams: Params
    var rawParams: Params
    var unknownParams: seq<(string, JsValue)>

    /** Parameters under known names only, each name once. */
    predicate Valid()
      reads this
    {
      Distinct(textParams) && Distinct(rawParams) && Distinct(unknownParams) &&
      (forall k :: k in Keys(textParams) ==> k in validTextParamNames) &&
      (forall k :: k in Keys(rawParams) ==> k in validRawParamNames)
    }

    /** The name lists the constructor installs (lib/request.js:138-147). */
    predicate Standard() {
      validTextParamNames == TextParamNames && validRawParamNames == RawParamNames
    }

    function Names(): ParamNames {
      ParamNames(validTextParamNames, validRawParamNames)
    }

    /** A request with no parameters (lib/request.js:148-153). */
    constructor Empty(command: JsValue, requestId: JsValue)
      ensures this.command == command && this.requestId == requestId
      ensures !allowUnknownParams && textParams == [] && rawParams == [] && unknownParams == []
      ensures Standard() && Valid()
    {
      validTextParamNames := TextParamNames;
      validRawParamNames := RawParamNames;
      this.command := command;
      this.requestId := requestId;
      allowUnknownParams := false;
      textParams := [];
      rawParams := [];
      unknownParams := [];
    }

    /** `new Request(command, requestId)` (lib/request.js:137-173). A command that is an
        object carries the whole request: its own `command` and `requestId`, and one
        parameter per member. */
    static method New(command: JsValue, requestId: JsValue) returns (r: Result<Request>)
      ensures !IsObject(command) ==> (r.Ok? && r.value.command == command && r.value.requestId == requestId &&
                                      r.value.textParams == [] && r.value.rawParams == [] && r.value.unknownParams == [])
      ensures IsObject(command) ==> (r.Ok? <==> Collected(StandardNames, Entries(command), |Entries(command)|).Ok?)
      ensures IsObject(command) && r.Ok? ==>
              var (text, raw, unknown) := Collected(StandardNames, Entries(command), |Entries(command)|).value;
              r.value.command == Property(command, "command") && r.value.requestId == Property(command, "requestId") &&
              r.value.textParams == text && r.value.rawParams == raw && r.value.unknownParams == unknown
      ensures r.Throw? ==> r.error == ReferenceError("convertToXml is not defined")
      ensures r.Ok? ==> fresh(r.value) && !r.value.allowUnknownParams && r.value.Standard() && r.value.Valid()
    {
      if !IsObject(command) {
        var req := new Request.Empty(command, requestId);
        return Ok(req);
      }
      var entries := Entries(command);
      var req := new Request.Empty(Property(command, "command"), Property(command, "requestId"));
      var thrown := req.AbsorbAll(entries);
      if thrown.Some? {
        return Throw(thrown.value);
      }
      CollectedPartitionsKeys(req.Names(), entries, |entries|);
      assert entries[..|entries|] == entries;
      return Ok(req);
    }

    /** The constructor's loop over an object's members (lib/request.js:159-166), on a
        request that has no parameters yet. */
    method AbsorbAll(entries: seq<(string, JsValue)>) returns (thrown: Option<JsError>)
      requires textParams == [] && rawParams == [] && unknownParams == []
      modifies this
      ensures thrown.Some? <==> Collected(Names(), entries, |entries|).Throw?
      ensures thrown.Some? ==> thrown.value == ReferenceError("convertToXml is not defined")
      ensures thrown.None? ==> (textParams, rawParams, unknownParams) == Collected(Names(), entries, |entries|).value
      ensures command == old(command) && requestId == old(requestId) && allowUnknownParams == old(allowUnknownParams)
    {
      var i := 0;
      while i < |entries|
        invariant 0 <= i <= |entries|
        invariant Collected(Names(), entries, i) == Ok((textParams, rawParams, unknownParams))
        invariant command == old(command) && requestId == old(requestId) && allowUnknownParams == old(allowUnknownParams)
      {
        ghost var lists := (textParams, rawParams, unknownParams);
        assert Collected(Names(), entries, i + 1) == CollectStep(Names(), lists, entries[i].0, entries[i].1);
        thrown := Absorb(entries[i].0, entries[i].1);
        if thrown.Some? {
          CollectedFailureSticks(Names(), entries, i + 1, |entries|);
          return;
        }
        i := i + 1;
      }
      return None;
    }

    /** One turn of the constructor's loop over an object's members
        (lib/request.js:159-166). */
    method Absorb(k: string, v: JsValue) returns (thrown: Option<JsError>)
      modifies this
      ensures var step := CollectStep(Names(), old((textParams, rawParams, unknownParams)), k, v);
              (thrown.Some? <==> step.Throw?) &&
              (step.Throw? ==> thrown == Some(step.error)) &&
              (step.Ok? ==> (textParams, rawParams, unknownParams) == step.value)
      ensures thrown.Some? ==>
              textParams == old(textParams) && rawParams == old(rawParams) && unknownParams == old(unknownParams)
      ensures command == old(command) && requestId == old(requestId) && allowUnknownParams == old(allowUnknownParams)
      ensures old(Valid()) ==> Valid()
    {
      if (k in validTextParamNames || k in validRawParamNames) && IsObject(v) {
        return Some(ReferenceError("convertToXml is not defined"));
      }
      if k in validTextParamNames || k in validRawParamNames {
        var _ := SetParam(k, v, Undefined);
      } else {
        StoreKeepsDistinct(unknownParams, k, v);
        unknownParams := Store(unknownParams, k, v);
      }
      return None;
    }

    /** setParam (lib/request.js:268-277): the values, as a list, are added to the
        parameter's list, which starts afresh when `replace` is truthy or the parameter is
        not set yet; a name on neither list throws. */
    method SetParam(key: string, values: JsValue, replace: JsValue) returns (thrown: Option<JsError>)
      modifies this
      ensures key in validTextParamNames ==>
              thrown.None? && rawParams == old(rawParams) &&
              textParams == Store(old(textParams), key, NewValues(Lookup(old(textParams), key), values, replace))
      ensures key !in validTextParamNames && key in validRawParamNames ==>
              thrown.None? && textParams == old(textParams) &&
              rawParams == Store(old(rawParams), key, NewValues(Lookup(old(rawParams), key), values, replace))
      ensures key !in validTextParamNames && key !in validRawParamNames ==>
              thrown == Some(Error("Invalid param name")) && textParams == old(textParams) && rawParams == old(rawParams)
      ensures unknownParams == old(unknownParams) && allowUnknownParams == old(allowUnknownParams)
      ensures command == old(command) && requestId == old(requestId)
      ensures old(Valid()) ==> Valid()
    {
      var text := key in validTextParamNames;
      if !text && key !in validRawParamNames {
        return Some(Error("Invalid param name"));
      }
      if text {
        var ps := AddValues(textParams, key, values, replace);
        StoreKeepsNames(textParams, key, NewValues(Lookup(textParams, key), values, replace), validTextParamNames);
        textParams := ps;
      } else {
        var ps := AddValues(rawParams, key, values, replace);
        StoreKeepsNames(rawParams, key, NewValues(Lookup(rawParams, key), values, replace), validRawParamNames);
        rawParams := ps;
      }
      return None;
    }

    /** setDocs (lib/request.js:280-283): sets `docs` only for a number at least zero. */
    method SetDocs(value: JsValue, replace: JsValue) returns (r: Request)
      requires Standard()
      modifies this
      ensures r == this
      ensures IsPositiveOrZero(value) ==>
              textParams == Store(old(textParams), "docs", NewValues(Lookup(old(textParams), "docs"), value, replace))
      ensures !IsPositiveOrZero(value) ==> textParams == old(textParams)
      ensures rawParams == old(rawParams) && unknownParams == old(unknownParams)
      ensures old(Valid()) ==> Valid()
    {
      if IsPositiveOrZero(value) {
        var _ := SetParam("docs", value, replace);
      }
      return this;
    }

    /** setOffset (lib/request.js:284-287): sets `offset` only for a number at least zero. */
    method SetOffset(value: JsValue, replace: JsValue) returns (r: Request)
      requires Standard()
      modifies this
      ensures r == this
      ensures IsPositiveOrZero(value) ==>
              textParams == Store(old(textParams), "offset", NewValues(Lookup(old(textParams), "offset"), value, replace))
      ensures !IsPositiveOrZero(value) ==> textParams == old(textParams)
      ensures rawParams == old(rawParams) && unknownParams == old(unknownParams)
      ensures old(Valid()) ==> Valid()
    {
      if IsPositiveOrZero(value) {
        var _ := SetParam("offset", value, replace);
      }
      return this;
    }

    /** `request.unknownParams[key] = value`, as the request types of lib/commands.js
        store their documents and ids (lines 44, 107, 115, 221). */
    method SetUnknownParam(key: string, value: JsValue)
      modifies this
      ensures unknownParams == Store(old(unknownParams), key, value)
      ensures textParams == old(textParams) && rawParams == old(rawParams)
      ensures old(Valid()) ==> Valid()
    {
      StoreKeepsDistinct(unknownParams, key, value);
      unknownParams := Store(unknownParams, key, value);
    }

    /** The loop over the unknown parameters (lib/request.js:224-255): a skipped one is
        left as it is; any other is made a list in place and its values rendered. */
    method AppendUnknown(rootXpath: string, idXpath: string) returns (r: Result<string>)
      modifies this
      ensures r == UnknownXml(old(unknownParams), |old(unknownParams)|, allowUnknownParams, rootXpath, idXpath)
      ensures textParams == old(textParams) && rawParams == old(rawParams) && allowUnknownParams == old(allowUnknownParams)
      ensures command == old(command) && requestId == old(requestId)
      ensures r.Ok? ==> unknownParams == WrapUnknown(old(unknownParams), allowUnknownParams, rootXpath)
      ensures |unknownParams| == |old(unknownParams)|
      ensures forall k :: 0 <= k < |unknownParams| ==>
                unknownParams[k] == old(unknownParams)[k] || unknownParams[k] == WrapEntry(old(unknownParams)[k])
      ensures old(Valid()) ==> Valid()
    {
      var before := unknownParams;
      r, unknownParams := RenderUnknown(unknownParams, allowUnknownParams, rootXpath, idXpath);
      WrappingKeepsDistinct(before, unknownParams);
    }

    /** getRequestXml without the XML builder (lib/request.js:184-265): the request
        element, the envelope, then inside the content element the text parameters
        escaped, the XML parameters as they are, and the documents. Values that were not
        lists become lists in place, in the envelope and among the unknown parameters. */
    method GetRequestXml(rootXpath: string, idXpath: string, envelope: array<(string, JsValue)>) returns (r: Result<string>)
      modifies this, envelope
      ensures r == RequestXml(old(envelope[..]), old(textParams), old(rawParams), old(unknownParams),
                              old(allowUnknownParams), rootXpath, idXpath)
      ensures envelope[..] == WrapEnvelope(old(envelope[..]))
      ensures textParams == old(textParams) && rawParams == old(rawParams) && allowUnknownParams == old(allowUnknownParams)
      ensures command == old(command) && requestId == old(requestId)
      ensures r.Ok? ==> unknownParams == WrapUnknown(old(unknownParams), allowUnknownParams, rootXpath)
      ensures |unknownParams| == |old(unknownParams)|
      ensures forall k :: 0 <= k < |unknownParams| ==>
                unknownParams[k] == old(unknownParams)[k] || unknownParams[k] == WrapEntry(old(unknownParams)[k])
      ensures old(Valid()) ==> Valid()
    {
      var doc := RequestOpen;
      doc := AppendEnvelope(doc, envelope);
      doc := doc + ContentOpen;
      doc := AppendParams(doc, textParams, true);
      doc := AppendParams(doc, rawParams, false);
      var docs := AppendUnknown(rootXpath, idXpath);
      if docs.Throw? {
        return Throw(docs.error);
      }
      return Ok(doc + docs.value + RequestClose);
    }
  }
}
