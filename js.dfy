/** The JavaScript values the request builder and the connection handle: thrown errors,
    a JSON-like value type, string conversion, truthiness, `split`, and lodash's
    `_.escape` (lodash 3.x: it also escapes the backtick, and `_.isFinite` accepts numbers
    only). */
module Js {
  import opened Bytes

  /** The error classes the core throws, with their messages. */
  datatype JsError =
    | Error(message: string)
    | TypeError(message: string)
    | SyntaxError(message: string)
    | ReferenceError(message: string)

  /** A value or a thrown error. */
  datatype Result<T> = Ok(value: T) | Throw(error: JsError)

  datatype NonFinite = NaN | PositiveInfinity | NegativeInfinity

  /** A JavaScript value as the core sees it. Numbers are integers; an object's members
      are listed in the order `for (key in obj)` visits them. */
  datatype JsValue =
    | Undefined
    | Null
    | Bool(b: bool)
    | Num(n: int)
    | NonFiniteNum(nf: NonFinite)
    | Str(s: string)
    | Arr(items: seq<JsValue>)
    | Obj(members: seq<(string, JsValue)>)

  /** `typeof value`. */
  function TypeOf(v: JsValue): string
  {
    match v
    case Undefined => "undefined"
    case Null => "object"
    case Bool(_) => "boolean"
    case Num(_) => "number"
    case NonFiniteNum(_) => "number"
    case Str(_) => "string"
    case Arr(_) => "object"
    case Obj(_) => "object"
  }

  /** JavaScript truthiness. */
  predicate Truthy(v: JsValue)
  {
    match v
    case Undefined => false
    case Null => false
    case Bool(b) => b
    case Num(n) => n != 0
    case NonFiniteNum(nf) => nf != NaN
    case Str(s) => s != ""
    case Arr(_) => true
    case Obj(_) => true
  }

  /** `String(v)`, which `+` on strings applies: arrays join their items with "," (null
      and undefined items as ""), plain objects print as "[object Object]". */
  function ToString(v: JsValue): string
    decreases v, 1
  {
    match v
    case Undefined => "undefined"
    case Null => "null"
    case Bool(b) => if b then "true" else "false"
    case Num(n) => IntToString(n)
    case NonFiniteNum(nf) =>
      (match nf case NaN => "NaN" case PositiveInfinity => "Infinity" case NegativeInfinity => "-Infinity")
    case Str(s) => s
    case Arr(items) => JoinItems(v, items, 0)
    case Obj(_) => "[object Object]"
  }

  function JoinItems(parent: JsValue, items: seq<JsValue>, i: nat): string
    requires parent.Arr? && items == parent.items
    decreases parent, 0, |items| - i
  {
    if i >= |items| then ""
    else
      var item := items[i];
      assert item < parent;
      var text := if item.Undefined? || item.Null? then "" else ToString(item);
      if i + 1 == |items| then text else text + "," + JoinItems(parent, items, i + 1)
  }

  /** lodash's internal `baseToString`: "" for null and undefined, else `String(v)`. */
  function LodashString(v: JsValue): string
  {
    if v.Undefined? || v.Null? then "" else ToString(v)
  }

  /** lodash's `_.isObject`: arrays and plain objects. */
  predicate IsObject(v: JsValue) {
    v.Arr? || v.Obj?
  }

  // ---------------------------------------------------------------------------
  // Objects as member lists in insertion order

  /** The keys of an object, in the order `for (key in obj)` visits them. */
  function Keys<V>(ps: seq<(string, V)>): (keys: seq<string>)
    ensures |keys| == |ps| && forall i :: 0 <= i < |ps| ==> keys[i] == ps[i].0
  {
    seq(|ps|, i requires 0 <= i < |ps| => ps[i].0)
  }

  /** No key occurs twice. */
  predicate Distinct<V>(ps: seq<(string, V)>) {
    forall i, j :: 0 <= i < j < |ps| ==> ps[i].0 != ps[j].0
  }

  /** `obj[key]`: the value of the member with that key, if any. */
  function Lookup<V>(ps: seq<(string, V)>, key: string): Option<V>
  {
    if ps == [] then None
    else if ps[0].0 == key then Some(ps[0].1)
    else Lookup(ps[1..], key)
  }

  /** `obj[key] = v`: an existing member keeps its place, a new one goes last. */
  function Store<V>(ps: seq<(string, V)>, key: string, v: V): seq<(string, V)>
  {
    if ps == [] then [(key, v)]
    else if ps[0].0 == key then [(key, v)] + ps[1..]
    else [ps[0]] + Store(ps[1..], key, v)
  }

  /** `obj[key]` on a plain object, undefined when there is no such member. */
  function Member(members: seq<(string, JsValue)>, key: string): (v: JsValue)
    ensures v != Undefined ==> exists i :: 0 <= i < |members| && members[i] == (key, v)
  {
    if members == [] then Undefined
    else if members[0].0 == key then members[0].1
    else Member(members[1..], key)
  }

  /** A key is found exactly when it is one of the object's keys. */
  lemma {:induction false} LookupFindsKeys<V>(ps: seq<(string, V)>, key: string)
    ensures Lookup(ps, key).Some? <==> key in Keys(ps)
    decreases |ps|
  {
    if ps != [] {
      LookupFindsKeys(ps[1..], key);
      assert Keys(ps) == [ps[0].0] + Keys(ps[1..]);
    }
  }

  /** After `obj[key] = v`, reading key gives v and every other key reads as before. */
  lemma {:induction false} LookupStore<V>(ps: seq<(string, V)>, key: string, v: V, other: string)
    ensures Lookup(Store(ps, key, v), other) == if other == key then Some(v) else Lookup(ps, other)
    decreases |ps|
  {
    if ps != [] && ps[0].0 != key {
      LookupStore(ps[1..], key, v, other);
    }
  }

  /** Storing keeps the order of the keys and adds a new key at the end. */
  lemma {:induction false} KeysStore<V>(ps: seq<(string, V)>, key: string, v: V)
    ensures Keys(Store(ps, key, v)) == if Lookup(ps, key).Some? then Keys(ps) else Keys(ps) + [key]
    decreases |ps|
  {
    if ps != [] {
      assert Keys(ps) == [ps[0].0] + Keys(ps[1..]);
      if ps[0].0 == key {
        assert Keys(Store(ps, key, v)) == [key] + Keys(ps[1..]);
      } else {
        KeysStore(ps[1..], key, v);
        assert Keys(Store(ps, key, v)) == [ps[0].0] + Keys(Store(ps[1..], key, v));
      }
    }
  }

  /** Storing never duplicates a key. */
  lemma StoreKeepsDistinct<V>(ps: seq<(string, V)>, key: string, v: V)
    ensures Distinct(ps) ==> Distinct(Store(ps, key, v))
  {
    KeysStore(ps, key, v);
    LookupFindsKeys(ps, key);
    var r := Store(ps, key, v);
    forall i, j | Distinct(ps) && 0 <= i < j < |r| ensures r[i].0 != r[j].0 {
      assert Keys(r)[i] == r[i].0 && Keys(r)[j] == r[j].0;
      if j < |ps| {
        assert Keys(ps)[i] == ps[i].0 && Keys(ps)[j] == ps[j].0;
      } else {
        assert Keys(ps)[i] == ps[i].0;
      }
    }
  }

  /** A second `obj[key] = w` overrides the first entirely. */
  lemma {:induction false} StoreTwice<V>(ps: seq<(string, V)>, key: string, v: V, w: V)
    ensures Store(Store(ps, key, v), key, w) == Store(ps, key, w)
    decreases |ps|
  {
    if ps != [] && ps[0].0 != key {
      StoreTwice(ps[1..], key, v, w);
    }
  }

  // ---------------------------------------------------------------------------
  // _.escape

  function EscapeChar(c: char): string
  {
    match c
    case '&' => "&amp;"
    case '<' => "&lt;"
    case '>' => "&gt;"
    case '"' => "&quot;"
    case '\'' => "&#39;"
    case '`' => "&#96;"
    case _ => [c]
  }

  /** `_.escape(s)` on a string: the six HTML-significant characters become entities. */
  function Escape(s: string): string
  {
    if s == [] then [] else EscapeChar(s[0]) + Escape(s[1..])
  }

  /** `_.escape(value)`: the value's lodash string, escaped. */
  function EscapeValue(v: JsValue): string
  {
    Escape(LodashString(v))
  }

  predicate IsSpecial(c: char) {
    c == '&' || c == '<' || c == '>' || c == '"' || c == '\'' || c == '`'
  }

  /** The entity t starts with, as the character it stands for and its length. */
  function EntityAt(t: string): Option<(char, nat)>
  {
    if |t| == 0 || t[0] != '&' then None
    else if |t| >= 5 && t[..5] == "&amp;" then Some(('&', 5))
    else if |t| >= 4 && t[..4] == "&lt;" then Some(('<', 4))
    else if |t| >= 4 && t[..4] == "&gt;" then Some(('>', 4))
    else if |t| >= 6 && t[..6] == "&quot;" then Some(('"', 6))
    else if |t| >= 5 && t[..5] == "&#39;" then Some(('\'', 5))
    else if |t| >= 5 && t[..5] == "&#96;" then Some(('`', 5))
    else None
  }

  /** The inverse of Escape: each of the six entities back to its character. */
  function Unescape(t: string): string
    decreases |t|
  {
    if t == [] then []
    else match EntityAt(t)
      case Some((c, n)) => if 0 < n <= |t| then [c] + Unescape(t[n..]) else t
      case None => [t[0]] + Unescape(t[1..])
  }

  lemma EntityOfEscape(c: char, rest: string)
    requires IsSpecial(c)
    ensures EntityAt(EscapeChar(c) + rest) == Some((c, |EscapeChar(c)|))
  {
    var t := EscapeChar(c) + rest;
    assert t[0] == '&';
    if c == '&' {
      assert t[..5] == "&amp;";
    } else if c == '<' {
      assert t[1] == 'l' && t[..4] == "&lt;";
    } else if c == '>' {
      assert t[1] == 'g' && t[..4] == "&gt;";
    } else if c == '"' {
      assert t[1] == 'q' && t[..6] == "&quot;";
    } else if c == '\'' {
      assert t[1] == '#' && t[2] == '3' && t[..5] == "&#39;";
    } else {
      assert t[1] == '#' && t[2] == '9' && t[..5] == "&#96;";
    }
  }

  lemma UnescapeStep(c: char, rest: string)
    ensures Unescape(EscapeChar(c) + rest) == [c] + Unescape(rest)
  {
    var t := EscapeChar(c) + rest;
    if IsSpecial(c) {
      EntityOfEscape(c, rest);
      assert t[|EscapeChar(c)|..] == rest;
    } else {
      assert t[0] == c && t[1..] == rest;
    }
  }

  /** Escaping loses nothing: unescaping gives the original text back. */
  lemma {:induction false} EscapeRoundTrip(s: string)
    ensures Unescape(Escape(s)) == s
    decreases |s|
  {
    if s != [] {
      UnescapeStep(s[0], Escape(s[1..]));
      EscapeRoundTrip(s[1..]);
    }
  }

  /** Escaped text holds none of < > " ' `, so it cannot open or close a tag or end an
      attribute value. */
  lemma {:induction false} EscapeIsInert(s: string)
    ensures forall i :: 0 <= i < |Escape(s)| ==> !IsSpecial(Escape(s)[i]) || Escape(s)[i] == '&'
    decreases |s|
  {
    if s != [] {
      EscapeIsInert(s[1..]);
      var e := EscapeChar(s[0]);
      forall i | 0 <= i < |Escape(s)| ensures !IsSpecial(Escape(s)[i]) || Escape(s)[i] == '&' {
        if i >= |e| {
          assert Escape(s)[i] == Escape(s[1..])[i - |e|];
        }
      }
    }
  }

  /** Text without the six characters is left as it is. */
  lemma {:induction false} EscapePlain(s: string)
    requires forall i :: 0 <= i < |s| ==> !IsSpecial(s[i])
    ensures Escape(s) == s
    decreases |s|
  {
    if s != [] {
      EscapePlain(s[1..]);
    }
  }

  // ---------------------------------------------------------------------------
  // String.prototype.split with a one-character separator

  /** `s.split(c)`: the pieces between occurrences of c; "" splits into [""]. */
  function Split(s: string, c: char): (parts: seq<string>)
    ensures |parts| >= 1
    ensures forall k, i :: 0 <= k < |parts| && 0 <= i < |parts[k]| ==> parts[k][i] != c
    decreases |s|
  {
    if s == [] then [""]
    else
      var rest := Split(s[1..], c);
      if s[0] == c then [""] + rest
      else [[s[0]] + rest[0]] + rest[1..]
  }

  /** Text before the first separator is the first piece. */
  lemma {:induction false} SplitPrefix(a: string, rest: string, c: char)
    requires c !in a
    ensures Split(a + rest, c) == [a + Split(rest, c)[0]] + Split(rest, c)[1..]
    decreases |a|
  {
    if a != [] {
      assert (a + rest)[1..] == a[1..] + rest;
      SplitPrefix(a[1..], rest, c);
      var r := Split(a[1..] + rest, c);
      var t := Split(rest, c);
      assert r[0] == a[1..] + t[0] && r[1..] == t[1..];
      assert a[0] in a && (a + rest)[0] == a[0];
      assert Split(a + rest, c) == [[a[0]] + r[0]] + r[1..];
      assert [a[0]] + (a[1..] + t[0]) == a + t[0];
    } else {
      var t := Split(rest, c);
      assert a + rest == rest && a + t[0] == t[0];
      assert [t[0]] + t[1..] == t;
    }
  }

  /** Two separator-free pieces joined by the separator split back into those pieces. */
  lemma SplitTwo(a: string, b: string, c: char)
    requires c !in a && c !in b
    ensures Split(a + [c] + b, c) == [a, b]
  {
    SplitPrefix(b, "", c);
    assert b + "" == b;
    assert Split([c] + b, c) == [""] + Split(b, c);
    assert ([c] + b)[1..] == b;
    assert a + [c] + b == a + ([c] + b);
    SplitPrefix(a, [c] + b, c);
    assert a + "" == a;
  }

  /** `parts.join(c)`. */
  function Join(parts: seq<string>, c: char): string
    requires |parts| >= 1
  {
    if |parts| == 1 then parts[0] else parts[0] + [c] + Join(parts[1..], c)
  }

  /** Splitting and joining on the same character gives the text back. */
  lemma {:induction false} SplitJoin(s: string, c: char)
    ensures Join(Split(s, c), c) == s
    decreases |s|
  {
    if s != [] {
      SplitJoin(s[1..], c);
      var rest := Split(s[1..], c);
      if s[0] == c {
        assert Split(s, c)[1..] == rest;
      } else {
        var parts := Split(s, c);
        assert parts[1..] == rest[1..];
        if |rest| > 1 {
          assert rest == [rest[0]] + rest[1..];
        }
      }
    }
  }
}
