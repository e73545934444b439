/** Search terms (lib/request.js:29-55): `Term` wraps a term, escaped or not, in the
    tags of an xpath; `QueryTerm` first puts a backslash before every query operator the
    caller does not allow. */
module Terms {
  import opened Bytes
  import opened Js

  /** The opening tags the Term loop accumulates in `prefix`, in path order. */
  function OpenTags(tags: seq<string>): string
  {
    if tags == [] then "" else OpenTags(tags[..|tags| - 1]) + "<" + tags[|tags| - 1] + ">"
  }

  /** The closing tags the Term loop accumulates in `postfix`: each new one goes in front. */
  function CloseTags(tags: seq<string>): string
  {
    if tags == [] then "" else "</" + tags[|tags| - 1] + ">" + CloseTags(tags[..|tags| - 1])
  }

  /** The body nested inside one element per tag, the first tag outermost. */
  function Nest(tags: seq<string>, body: string): string
  {
    if tags == [] then body else "<" + tags[0] + ">" + Nest(tags[1..], body) + "</" + tags[0] + ">"
  }

  /** The tags of `xpath`: none when it is missing or empty, else its `split('/')`. */
  function Tags(xpath: Option<string>): (r: seq<string>)
    ensures r == [] <==> xpath.None? || xpath.value == ""
    ensures forall k, i :: 0 <= k < |r| && 0 <= i < |r[k]| ==> r[k][i] != '/'
  {
    if xpath.Some? && xpath.value != "" then Split(xpath.value, '/') else []
  }

  /** `escape`, defaulting to true when undefined, as a condition. */
  predicate Escaping(escape: JsValue) {
    escape.Undefined? || Truthy(escape)
  }

  lemma {:induction false} NestAppend(tags: seq<string>, t: string, body: string)
    ensures Nest(tags + [t], body) == Nest(tags, "<" + t + ">" + body + "</" + t + ">")
    decreases |tags|
  {
    if tags != [] {
      assert (tags + [t])[1..] == tags[1..] + [t];
      NestAppend(tags[1..], t, body);
    } else {
      assert [t][1..] == [];
    }
  }

  /** The prefix and postfix the loop builds close exactly the elements they open, in
      reverse order: together they nest the body. */
  lemma {:induction false} WrapIsNesting(tags: seq<string>, body: string)
    ensures OpenTags(tags) + body + CloseTags(tags) == Nest(tags, body)
    decreases |tags|
  {
    if tags != [] {
      var init := tags[..|tags| - 1];
      var t := tags[|tags| - 1];
      var inner := "<" + t + ">" + body + "</" + t + ">";
      WrapIsNesting(init, inner);
      assert tags == init + [t];
      NestAppend(init, t, body);
      calc {
        OpenTags(tags) + body + CloseTags(tags);
        OpenTags(init) + "<" + t + ">" + body + ("</" + t + ">" + CloseTags(init));
        OpenTags(init) + inner + CloseTags(init);
      }
    }
  }

  /** The loop of Term (lib/request.js:33-36), and of the id wrapping in getRequestXml
      (lines 235-239): one opening tag per step appended to `prefix`, one closing tag
      put in front of `postfix`. */
  method NestTags(tags: seq<string>, body: string) returns (r: string)
    ensures r == Nest(tags, body)
  {
    var prefix := "";
    var postfix := "";
    var i := 0;
    while i < |tags|
      invariant 0 <= i <= |tags|
      invariant prefix == OpenTags(tags[..i]) && postfix == CloseTags(tags[..i])
    {
      assert tags[..i + 1][..i] == tags[..i];
      prefix := prefix + "<" + tags[i] + ">";
      postfix := "</" + tags[i] + ">" + postfix;
      i := i + 1;
    }
    assert tags[..|tags|] == tags;
    WrapIsNesting(tags, body);
    r := prefix + body + postfix;
  }

  /** Term (lib/request.js:29-40): the term, escaped unless `escape` is given and falsy,
      nested in the elements of the xpath's steps. */
  method Term(term: string, xpath: Option<string>, escape: JsValue) returns (r: string)
    ensures r == Nest(Tags(xpath), if Escaping(escape) then Escape(term) else term)
  {
    var body := if Escaping(escape) then Escape(term) else term;
    var tags: seq<string> := [];
    if xpath.Some? && xpath.value != "" {
      tags := Split(xpath.value, '/');
    }
    r := NestTags(tags, body);
  }

  /** The operators a QueryTerm escapes unless they are allowed. */
  const QuerySymbols: string := "@$\"=<>(){}!+"

  /** `QuerySymbols.replace(/[allowed]/g, "")`: the symbols not allowed, in order. */
  function Invalid(symbols: string, allowed: Option<string>): (r: string)
    ensures forall c :: c in r <==> c in symbols && !(allowed.Some? && c in allowed.value)
  {
    if symbols == [] then []
    else
      var rest := Invalid(symbols[1..], allowed);
      if allowed.Some? && symbols[0] in allowed.value then rest else [symbols[0]] + rest
  }

  /** `term.replace(/[invalid]/g, "\\$&")`: a backslash before each invalid symbol. */
  function Backslashed(term: string, invalid: string): string
  {
    if term == [] then []
    else (if term[0] in invalid then ['\\', term[0]] else [term[0]]) + Backslashed(term[1..], invalid)
  }

  /** A reader of query text: a backslash makes the next character literal. */
  function Unbackslash(s: string): string
  {
    if s == [] then []
    else if s[0] == '\\' && |s| >= 2 then [s[1]] + Unbackslash(s[2..])
    else [s[0]] + Unbackslash(s[1..])
  }

  /** QueryTerm (lib/request.js:51-55): the term with each operator outside the allowed
      ones backslash-escaped, then put through Term with escaping on. */
  method QueryTerm(term: string, xpath: Option<string>, allowedSymbols: Option<string>) returns (r: string)
    ensures r == Nest(Tags(xpath), Escape(Backslashed(term, Invalid(QuerySymbols, allowedSymbols))))
  {
    var invalid := Invalid(QuerySymbols, allowedSymbols);
    var escaped := Backslashed(term, invalid);
    r := Term(escaped, xpath, Undefined);
  }

  /** Every character of `symbols` in `out`, other than a backslash, comes right after a
      backslash. */
  predicate Marked(out: string, symbols: string) {
    forall i :: 0 <= i < |out| && out[i] in symbols && out[i] != '\\' ==> i > 0 && out[i - 1] == '\\'
  }

  /** Every symbol QueryTerm escapes is preceded by a backslash in its output, and no
      character other than a backslash is added. */
  lemma {:induction false} BackslashedMarksEvery(term: string, invalid: string)
    ensures Marked(Backslashed(term, invalid), invalid)
    decreases |term|
  {
    if term != [] {
      BackslashedMarksEvery(term[1..], invalid);
      var head: string := if term[0] in invalid then ['\\', term[0]] else [term[0]];
      var out := Backslashed(term, invalid);
      var rest := Backslashed(term[1..], invalid);
      assert out == head + rest;
      forall i | 0 <= i < |out| && out[i] in invalid && out[i] != '\\'
        ensures i > 0 && out[i - 1] == '\\'
      {
        if i >= |head| {
          assert out[i] == rest[i - |head|];
          if i > |head| {
            assert out[i - 1] == rest[i - 1 - |head|];
          }
        } else {
          assert out[i] == head[i];
          if i > 0 {
            assert out[i - 1] == head[i - 1];
          }
        }
      }
    }
  }

  /** A term without backslashes is read back unchanged from its escaped form, whichever
      symbols were escaped. */
  lemma {:induction false} BackslashRoundTrip(term: string, invalid: string)
    requires '\\' !in term
    ensures Unbackslash(Backslashed(term, invalid)) == term
    decreases |term|
  {
    if term != [] {
      BackslashRoundTrip(term[1..], invalid);
      var rest := Backslashed(term[1..], invalid);
      if term[0] in invalid {
        assert Backslashed(term, invalid) == ['\\', term[0]] + rest;
        assert (['\\', term[0]] + rest)[2..] == rest;
      } else {
        assert Backslashed(term, invalid) == [term[0]] + rest;
        assert ([term[0]] + rest)[1..] == rest;
      }
    }
  }

  /** Allowing every operator leaves the term as it is. */
  lemma {:induction false} AllAllowedChangesNothing(term: string, allowed: string)
    requires forall c :: c in QuerySymbols ==> c in allowed
    ensures Backslashed(term, Invalid(QuerySymbols, Some(allowed))) == term
    decreases |term|
  {
    if term != [] {
      AllAllowedChangesNothing(term[1..], allowed);
      assert term == [term[0]] + term[1..];
    }
  }

  /** "a/b" wraps the term as `<a><b>term</b></a>`. */
  lemma TwoStepExample(body: string)
    ensures Nest(Tags(Some("a/b")), body) == "<a><b>" + body + "</b></a>"
  {
    var s := "a/b";
    assert s[1..] == "/b" && s[1..][1..] == "b" && s[1..][1..][1..] == "";
    assert Split("", '/') == [""];
    assert ['b'] + "" == "b";
    assert Split("b", '/') == ["b"];
    assert Split("/b", '/') == ["", "b"];
    assert ['a'] + "" == "a";
    assert Split(s, '/') == ["a", "b"];
    assert ["a", "b"][1..] == ["b"] && ["b"][1..] == [];
    calc {
      Nest(["a", "b"], body);
      "<" + "a" + ">" + Nest(["b"], body) + "</" + "a" + ">";
      "<" + "a" + ">" + ("<" + "b" + ">" + body + "</" + "b" + ">") + "</" + "a" + ">";
      "<a><b>" + body + "</b></a>";
    }
  }
}
