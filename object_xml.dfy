/** Documents as XML (lib/request.js:365-458): `GetValueType` picks the `js:type`
    attribute of a value or rejects it, `ValueToXml` renders one value, and
    `ObjectToXml` renders an object member by member, an array member as one element
    per item. */
module ObjectXml {
  import opened Bytes
  import opened Js

  /** A character `[:a-zA-Z_]` accepts. */
  predicate IsNameStart(c: char) {
    c == ':' || ('a' <= c <= 'z') || ('A' <= c <= 'Z') || c == '_'
  }

  /** A character `[:a-zA-Z_\-.0-9]` accepts. */
  predicate IsNameChar(c: char) {
    IsNameStart(c) || c == '-' || c == '.' || ('0' <= c <= '9')
  }

  /** `key.match(/^[:a-zA-Z_][:a-zA-Z_\-.0-9]*$/)` succeeds. */
  predicate IsTagName(key: string) {
    |key| >= 1 && IsNameStart(key[0]) && forall i :: 1 <= i < |key| ==> IsNameChar(key[i])
  }

  const ObjectType: string := " js:type=\"object\""
  const ArrayType: string := " js:type=\"array\""
  const BooleanType: string := " js:type=\"boolean\""
  const NullType: string := " js:type=\"null\""
  const NumberType: string := " js:type=\"number\""
  const StringType: string := " js:type=\"string\""

  /** GetValueType (lib/request.js:379-418): the attribute that marks a value whose text
      alone would not tell its type, "" for a non-empty string, array or object, and a
      TypeError for undefined and for NaN and the infinities. */
  function GetValueType(value: JsValue, key: string): (r: Result<string>)
    ensures r.Throw? <==> value.Undefined? || value.NonFiniteNum?
    ensures r.Throw? ==> r.error == TypeError("\"" + key + "\" is of unsupported data type. (Base type: " + TypeOf(value) + ")")
    ensures r.Ok? ==> (r.value == "" <==> (value.Str? && value.s != "") || (value.Arr? && value.items != [])
                                          || (value.Obj? && value.members != []))
  {
    match value
    case Obj(members) => Ok(if members == [] then ObjectType else "")
    case Arr(items) => Ok(if items == [] then ArrayType else "")
    case Bool(_) => Ok(BooleanType)
    case Null => Ok(NullType)
    case Num(_) => Ok(NumberType)
    case Str(s) => Ok(if s == "" then StringType else "")
    case _ => Throw(TypeError("\"" + key + "\" is of unsupported data type. (Base type: " + TypeOf(value) + ")"))
  }

  /** ValueToXml (lib/request.js:365-371): arrays are refused, plain objects rendered,
      booleans spelled out, anything else (escaped when asked) as its string. */
  function ValueToXml(value: JsValue, escape: bool): Result<string>
    decreases value, 3, 1
  {
    match value
    case Arr(_) => Throw(TypeError("Multi-dimensional arrays are not supported"))
    case Obj(_) => ObjectXml(value)
    case Bool(b) => Ok(if b then "true" else "false")
    case _ => Ok(if escape then EscapeValue(value) else ToString(value))
  }

  /** What ObjectToXml returns for any value: an object's members in order; for a
      non-empty array or string `for in` visits the index "0" first, which is not a tag
      name; numbers, booleans, null and undefined have no keys. */
  function ObjectXml(value: JsValue): Result<string>
    decreases value, 3, 0
  {
    match value
    case Obj(members) => MembersXml(value, |members|)
    case Arr(items) => if items == [] then Ok("") else Throw(SyntaxError("Invalid characters in tag name: 0"))
    case Str(s) => if s == "" then Ok("") else Throw(SyntaxError("Invalid characters in tag name: 0"))
    case _ => Ok("")
  }

  /** The first n members of an object, rendered one after the other; the first member
      that fails decides the error. */
  function MembersXml(obj: JsValue, n: nat): Result<string>
    requires obj.Obj? && n <= |obj.members|
    decreases obj, 1, n
  {
    if n == 0 then Ok("")
    else match MembersXml(obj, n - 1)
      case Throw(e) => Throw(e)
      case Ok(pre) =>
        var (key, value) := obj.members[n - 1];
        assert obj.members[n - 1] in obj.members;
        match MemberXml(key, value)
        case Throw(e) => Throw(e)
        case Ok(s) => Ok(pre + s)
  }

  /** One member: the key must be a tag name and the value supported. An empty array
      or object becomes one empty element with its type, a non-empty array one element
      per item, anything else one element around its rendering. */
  function MemberXml(key: string, value: JsValue): Result<string>
    decreases value, 4, 0
  {
    if !IsTagName(key) then Throw(SyntaxError("Invalid characters in tag name: " + key))
    else match GetValueType(value, key)
      case Throw(e) => Throw(e)
      case Ok(t) =>
        if value.Arr? then
          if value.items == [] then Ok("<" + key + t + "/>") else ItemsXml(key, value, |value.items|)
        else if t != "" && value.Obj? && value.members == [] then Ok("<" + key + t + "/>")
        else match ValueToXml(value, true)
          case Throw(e) => Throw(e)
          case Ok(s) => Ok("<" + key + t + ">" + s + "</" + key + ">")
  }

  /** The first n items of an array member, each as an element named by the key. */
  function ItemsXml(key: string, arr: JsValue, n: nat): Result<string>
    requires arr.Arr? && n <= |arr.items|
    decreases arr, 1, n
  {
    if n == 0 then Ok("")
    else match ItemsXml(key, arr, n - 1)
      case Throw(e) => Throw(e)
      case Ok(pre) =>
        var item := arr.items[n - 1];
        match GetValueType(item, key)
        case Throw(e) => Throw(e)
        case Ok(t) =>
          match ValueToXml(item, true)
          case Throw(e) => Throw(e)
          case Ok(s) => Ok(pre + "<" + key + t + ">" + s + "</" + key + ">")
  }

  /** Once a member fails, the rendering of every longer prefix fails the same way. */
  lemma {:induction false} MembersFailureSticks(obj: JsValue, i: nat, n: nat)
    requires obj.Obj? && i <= n <= |obj.members| && MembersXml(obj, i).Throw?
    ensures MembersXml(obj, n) == MembersXml(obj, i)
    decreases n
  {
    if n > i {
      MembersFailureSticks(obj, i, n - 1);
    }
  }

  lemma {:induction false} ItemsFailureSticks(key: string, arr: JsValue, i: nat, n: nat)
    requires arr.Arr? && i <= n <= |arr.items| && ItemsXml(key, arr, i).Throw?
    ensures ItemsXml(key, arr, n) == ItemsXml(key, arr, i)
    decreases n
  {
    if n > i {
      ItemsFailureSticks(key, arr, i, n - 1);
    }
  }

  /** ObjectToXml (lib/request.js:425-458): the loop over the keys, with an inner loop
      over the items of an array member, accumulating `res`. */
  method ObjectToXml(obj: JsValue) returns (r: Result<string>)
    ensures r == ObjectXml(obj)
  {
    if (obj.Arr? && obj.items != []) || (obj.Str? && obj.s != "") {
      return Throw(SyntaxError("Invalid characters in tag name: 0"));
    }
    if !obj.Obj? {
      return Ok("");
    }
    var res := "";
    var i := 0;
    while i < |obj.members|
      invariant 0 <= i <= |obj.members|
      invariant MembersXml(obj, i) == Ok(res)
    {
      var (key, value) := obj.members[i];
      var piece: Result<string>;
      if !IsTagName(key) {
        piece := Throw(SyntaxError("Invalid characters in tag name: " + key));
      } else {
        var t := GetValueType(value, key);
        if t.Throw? {
          piece := Throw(t.error);
        } else if value.Arr? {
          if value.items == [] {
            piece := Ok("<" + key + t.value + "/>");
          } else {
            piece := ItemsToXml(key, value);
          }
        } else if t.value != "" && value.Obj? && value.members == [] {
          piece := Ok("<" + key + t.value + "/>");
        } else {
          var s := ValueToXml(value, true);
          if s.Throw? {
            piece := Throw(s.error);
          } else {
            piece := Ok("<" + key + t.value + ">" + s.value + "</" + key + ">");
          }
        }
      }
      assert piece == MemberXml(key, value);
      if piece.Throw? {
        MembersFailureSticks(obj, i + 1, |obj.members|);
        return Throw(piece.error);
      }
      res := res + piece.value;
      i := i + 1;
    }
    return Ok(res);
  }

  /** The inner loop of ObjectToXml (lib/request.js:441-445): one element per item of an
      array member, each with its own type mark; the first item that fails decides. */
  method ItemsToXml(key: string, arr: JsValue) returns (piece: Result<string>)
    requires arr.Arr?
    ensures piece == ItemsXml(key, arr, |arr.items|)
  {
    var j := 0;
    var items := "";
    while j < |arr.items|
      invariant 0 <= j <= |arr.items|
      invariant ItemsXml(key, arr, j) == Ok(items)
    {
      var item := arr.items[j];
      var it := GetValueType(item, key);
      if it.Throw? {
        ItemsFailureSticks(key, arr, j + 1, |arr.items|);
        return Throw(it.error);
      }
      var s := ValueToXml(item, true);
      if s.Throw? {
        ItemsFailureSticks(key, arr, j + 1, |arr.items|);
        return Throw(s.error);
      }
      items := items + "<" + key + it.value + ">" + s.value + "</" + key + ">";
      j := j + 1;
    }
    return Ok(items);
  }

  // ---------------------------------------------------------------------------
  // What the rendering promises

  /** The values ObjectToXml accepts, stated directly: no undefined, NaN or infinity
      anywhere, every key of every object a tag name, and no array inside an array. */
  predicate Convertible(value: JsValue)
    decreases value
  {
    match value
    case Undefined => false
    case NonFiniteNum(_) => false
    case Arr(items) => forall i :: 0 <= i < |items| ==> !items[i].Arr? && Convertible(items[i])
    case Obj(members) => forall i :: 0 <= i < |members| ==> IsTagName(members[i].0) && Convertible(members[i].1)
    case _ => true
  }

  lemma {:induction false} MembersXmlOk(obj: JsValue, n: nat)
    requires obj.Obj? && n <= |obj.members|
    ensures MembersXml(obj, n).Ok? <==>
            forall i :: 0 <= i < n ==> IsTagName(obj.members[i].0) && Convertible(obj.members[i].1)
    decreases obj, 1, n
  {
    if n > 0 {
      MembersXmlOk(obj, n - 1);
      var (key, value) := obj.members[n - 1];
      assert obj.members[n - 1] in obj.members;
      MembersXmlStep(obj, n);
      MemberXmlOk(key, value);
      assert (forall i :: 0 <= i < n ==> IsTagName(obj.members[i].0) && Convertible(obj.members[i].1)) <==>
             (forall i :: 0 <= i < n - 1 ==> IsTagName(obj.members[i].0) && Convertible(obj.members[i].1)) &&
             IsTagName(key) && Convertible(value);
    }
  }

  lemma MembersXmlStep(obj: JsValue, n: nat)
    requires obj.Obj? && 0 < n <= |obj.members|
    ensures MembersXml(obj, n).Ok? <==>
            MembersXml(obj, n - 1).Ok? && MemberXml(obj.members[n - 1].0, obj.members[n - 1].1).Ok?
  {
  }

  lemma {:induction false} MemberXmlOk(key: string, value: JsValue)
    ensures MemberXml(key, value).Ok? <==> IsTagName(key) && Convertible(value)
    decreases value, 4, 0
  {
    if IsTagName(key) && !value.Undefined? && !value.NonFiniteNum? {
      if value.Arr? {
        ItemsXmlOk(key, value, |value.items|);
      } else if !(value.Obj? && value.members == []) {
        ValueToXmlOk(value);
      }
    }
  }

  lemma {:induction false} ItemsXmlOk(key: string, arr: JsValue, n: nat)
    requires arr.Arr? && n <= |arr.items|
    ensures ItemsXml(key, arr, n).Ok? <==>
            forall i :: 0 <= i < n ==> !arr.items[i].Arr? && Convertible(arr.items[i])
    decreases arr, 1, n
  {
    if n > 0 {
      ItemsXmlOk(key, arr, n - 1);
      ItemsXmlStep(key, arr, n);
      ArrayItemOk(key, arr.items[n - 1]);
      ItemsSplit(arr, n);
    }
  }

  /** One item of an array converts exactly when it is not itself an array and is
      convertible. */
  lemma ArrayItemOk(key: string, item: JsValue)
    ensures GetValueType(item, key).Ok? && ValueToXml(item, true).Ok? <==> !item.Arr? && Convertible(item)
    decreases item, 4
  {
    if !item.Undefined? && !item.NonFiniteNum? && !item.Arr? {
      ValueToXmlOk(item);
    }
  }

  lemma ItemsSplit(arr: JsValue, n: nat)
    requires arr.Arr? && 0 < n <= |arr.items|
    ensures (forall i :: 0 <= i < n ==> !arr.items[i].Arr? && Convertible(arr.items[i])) <==>
            (forall i :: 0 <= i < n - 1 ==> !arr.items[i].Arr? && Convertible(arr.items[i])) &&
            !arr.items[n - 1].Arr? && Convertible(arr.items[n - 1])
  {
  }

  lemma ItemsXmlStep(key: string, arr: JsValue, n: nat)
    requires arr.Arr? && 0 < n <= |arr.items|
    ensures ItemsXml(key, arr, n).Ok? <==>
            ItemsXml(key, arr, n - 1).Ok? && GetValueType(arr.items[n - 1], key).Ok? && ValueToXml(arr.items[n - 1], true).Ok?
  {
  }

  lemma {:induction false} ValueToXmlOk(value: JsValue)
    requires !value.Arr? && !value.Undefined? && !value.NonFiniteNum?
    ensures ValueToXml(value, true).Ok? <==> Convertible(value)
    decreases value, 3, 1
  {
    if value.Obj? {
      ObjectXmlOk(value);
    }
  }

  /** ObjectToXml succeeds on an object exactly when the object is convertible. */
  lemma {:induction false} ObjectXmlOk(obj: JsValue)
    requires obj.Obj?
    ensures ObjectXml(obj).Ok? <==> Convertible(obj)
    decreases obj, 3, 0
  {
    MembersXmlOk(obj, |obj.members|);
  }

  /** A value that is not an object renders as nothing, unless its first index "0"
      is visited: a non-empty array or string fails on that key. */
  lemma NonObjectXml(value: JsValue)
    requires !value.Obj?
    ensures ObjectXml(value).Ok? ==> ObjectXml(value).value == ""
    ensures ObjectXml(value).Throw? <==> (value.Arr? && value.items != []) || (value.Str? && value.s != "")
    ensures ObjectXml(value).Throw? ==> ObjectXml(value).error == SyntaxError("Invalid characters in tag name: 0")
  {
  }

  /** The rendering of a prefix of the members depends on that prefix only. */
  lemma {:induction false} MembersXmlPrefix(a: JsValue, b: JsValue, n: nat)
    requires a.Obj? && b.Obj? && n <= |a.members| && n <= |b.members|
    requires a.members[..n] == b.members[..n]
    ensures MembersXml(a, n) == MembersXml(b, n)
    decreases n
  {
    if n > 0 {
      assert a.members[..n - 1] == b.members[..n - 1] by {
        assert a.members[..n - 1] == a.members[..n][..n - 1];
        assert b.members[..n - 1] == b.members[..n][..n - 1];
      }
      MembersXmlPrefix(a, b, n - 1);
      assert a.members[n - 1] == a.members[..n][n - 1] == b.members[n - 1];
    }
  }

  /** Members render independently: the XML of an object made of two runs of members is
      the XML of the first run followed by that of the second. */
  lemma {:induction false} ObjectXmlConcat(a: seq<(string, JsValue)>, b: seq<(string, JsValue)>, k: nat)
    requires k <= |b|
    requires ObjectXml(Obj(a)).Ok? && MembersXml(Obj(b), k).Ok?
    ensures MembersXml(Obj(a + b), |a| + k) == Ok(ObjectXml(Obj(a)).value + MembersXml(Obj(b), k).value)
    decreases k
  {
    if k == 0 {
      assert (a + b)[..|a|] == a[..|a|];
      MembersXmlPrefix(Obj(a + b), Obj(a), |a|);
      assert ObjectXml(Obj(a)) == MembersXml(Obj(a), |a|);
      assert ObjectXml(Obj(a)).value + "" == ObjectXml(Obj(a)).value;
    } else {
      assert MembersXml(Obj(b), k - 1).Ok?;
      ObjectXmlConcat(a, b, k - 1);
      assert (a + b)[|a| + k - 1] == b[k - 1];
      var (key, value) := b[k - 1];
      var x := ObjectXml(Obj(a)).value;
      var y := MembersXml(Obj(b), k - 1).value;
      var m := MemberXml(key, value);
      assert m.Ok? && MembersXml(Obj(b), k).value == y + m.value;
      assert MembersXml(Obj(a + b), |a| + k) == Ok((x + y) + m.value);
      assert (x + y) + m.value == x + (y + m.value);
    }
  }

  /** An empty array member is one self-closing element marked as an array. */
  lemma EmptyArrayMember(key: string)
    requires IsTagName(key)
    ensures MemberXml(key, Arr([])) == Ok("<" + key + " js:type=\"array\"/>")
  {
    assert GetValueType(Arr([]), key) == Ok(ArrayType);
    assert "<" + key + ArrayType + "/>" == "<" + key + " js:type=\"array\"/>";
  }

  /** An empty object member is one self-closing element marked as an object. */
  lemma EmptyObjectMember(key: string)
    requires IsTagName(key)
    ensures MemberXml(key, Obj([])) == Ok("<" + key + " js:type=\"object\"/>")
  {
    assert GetValueType(Obj([]), key) == Ok(ObjectType);
    assert "<" + key + ObjectType + "/>" == "<" + key + " js:type=\"object\"/>";
  }

  /** A boolean member is spelled out and marked as a boolean. */
  lemma BooleanMember(key: string, b: bool)
    requires IsTagName(key)
    ensures MemberXml(key, Bool(b)) == Ok("<" + key + " js:type=\"boolean\">" + (if b then "true" else "false") + "</" + key + ">")
  {
    assert GetValueType(Bool(b), key) == Ok(BooleanType);
    var v := if b then "true" else "false";
    assert ValueToXml(Bool(b), true) == Ok(v);
    assert "<" + key + BooleanType + ">" + v + "</" + key + ">"
        == "<" + key + " js:type=\"boolean\">" + v + "</" + key + ">";
  }

  /** A non-empty string member is one element around the escaped text, which holds no
      markup and gives the string back when unescaped. */
  lemma StringMember(key: string, s: string)
    requires IsTagName(key) && s != ""
    ensures MemberXml(key, Str(s)) == Ok("<" + key + ">" + Escape(s) + "</" + key + ">")
    ensures Unescape(Escape(s)) == s
    ensures forall i :: 0 <= i < |Escape(s)| ==> Escape(s)[i] != '<' && Escape(s)[i] != '>'
  {
    assert GetValueType(Str(s), key) == Ok("");
    assert ValueToXml(Str(s), true) == Ok(Escape(s));
    assert "<" + key + "" + ">" == "<" + key + ">";
    EscapeRoundTrip(s);
    EscapeIsInert(s);
  }

  /** A non-empty array member is one element per item, in order, each with the item's
      own type mark. */
  lemma {:induction false} ArrayMemberItems(key: string, arr: JsValue, n: nat)
    requires arr.Arr? && 0 < n <= |arr.items| && IsTagName(key)
    requires ItemsXml(key, arr, n).Ok?
    ensures var item := arr.items[n - 1];
            GetValueType(item, key).Ok? && ValueToXml(item, true).Ok? &&
            ItemsXml(key, arr, n).value == ItemsXml(key, arr, n - 1).value
              + "<" + key + GetValueType(item, key).value + ">" + ValueToXml(item, true).value + "</" + key + ">"
  {
  }
}
