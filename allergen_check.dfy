/** The client-side allergen check of the scanner page
    (src/app/home/page.js): the user's free-text allergy field becomes a list
    of terms, the allergen fields of the product record become a list of
    tokens, terms and tokens are matched by equality or substring, and the
    alerts for the matches are merged with the server's warnings, dropping
    duplicates. */
module AllergenCheck {
  import opened JsStrings
  import opened JsValues
  import opened InsertionSets
  import opened KeyedDedupe

  // ---------------------------------------------------------------------
  // normalizeAllergen

  /** `Trim(Lower(s))` has no capital, no whitespace at either end, is
      empty exactly when `s` is blank, and keeps out of it every character
      that is neither in `s` nor a lower-case letter. */
  lemma NormalizedShape(s: string)
    ensures IsLower(Trim(Lower(s))) && IsTrimmed(Trim(Lower(s)))
    ensures Trim(Lower(s)) == [] <==> AllWhitespace(s)
    ensures forall c :: c !in s && !('a' <= c <= 'z') ==> c !in Trim(Lower(s))
  {
    TrimLowerIsLower(s);
    TrimSpec(Lower(s));
    TrimEmptyIffBlank(Lower(s));
    LowerBlank(s);
    TrimChars(Lower(s));
    forall c | c !in s && !('a' <= c <= 'z') ensures c !in Trim(Lower(s)) {
      LowerKeepsOut(s, c);
    }
  }

  /** `normalizeAllergen(name)`: `""` for a falsy value, `""` from the
      `catch` when `String(name)` throws, and otherwise `String(name)`
      lower-cased and trimmed. */
  function NormalizeAllergen(name: Value): (r: string)
    ensures IsLower(r) && IsTrimmed(r)
    ensures r == [] <==> !Truthy(name) || StringThrows(name) || AllWhitespace(JsString(name))
  {
    if !Truthy(name) then []
    else if StringThrows(name) then []
    else
      NormalizedShape(JsString(name));
      Trim(Lower(JsString(name)))
  }

  /** `.filter(Boolean)` on a list of strings: the non-empty ones, in order. */
  function KeepNonEmpty(xs: seq<string>): (r: seq<string>)
    decreases |xs|
  {
    if xs == [] then []
    else KeepNonEmpty(xs[..|xs| - 1]) + (if xs[|xs| - 1] == [] then [] else [xs[|xs| - 1]])
  }

  /** Filtering keeps exactly the non-empty elements, and it distributes
      over concatenation. */
  lemma {:induction false} KeepNonEmptySpec(xs: seq<string>)
    ensures forall x :: x in KeepNonEmpty(xs) <==> x in xs && x != []
    decreases |xs|
  {
    if xs != [] {
      var init := xs[..|xs| - 1];
      KeepNonEmptySpec(init);
      assert xs == init + [xs[|xs| - 1]];
    }
  }

  lemma {:induction false} KeepNonEmptyAppend(xs: seq<string>, ys: seq<string>)
    ensures KeepNonEmpty(xs + ys) == KeepNonEmpty(xs) + KeepNonEmpty(ys)
    decreases |ys|
  {
    if ys == [] {
      assert xs + ys == xs;
    } else {
      var init := ys[..|ys| - 1];
      KeepNonEmptyAppend(xs, init);
      assert (xs + ys)[..|xs + ys| - 1] == xs + init;
    }
  }

  // ---------------------------------------------------------------------
  // parseAllergiesString

  /** `s.split(',').map(normalizeAllergen).filter(Boolean)` */
  function CommaTerms(t: string): seq<string> {
    KeepNonEmpty(NormalizeEach(Split(t, {','})))
  }

  /** `normalizeAllergen` applied to a string. */
  function NormalizeString(p: string): string {
    NormalizeAllergen(Str(p))
  }

  /** `.map(normalizeAllergen)` on a list of strings. */
  function NormalizeEach(ps: seq<string>): (r: seq<string>)
    ensures |r| == |ps|
  {
    MapStrings(ps, NormalizeString)
  }

  function MapStrings(xs: seq<string>, f: string -> string): (r: seq<string>)
    ensures |r| == |xs|
  {
    seq(|xs|, i requires 0 <= i < |xs| => f(xs[i]))
  }

  lemma MapStringsAppend(xs: seq<string>, ys: seq<string>, f: string -> string)
    ensures MapStrings(xs + ys, f) == MapStrings(xs, f) + MapStrings(ys, f)
  {
    var l, r := MapStrings(xs + ys, f), MapStrings(xs, f) + MapStrings(ys, f);
    forall i | 0 <= i < |l| ensures l[i] == r[i] {
      if i < |xs| {
        assert (xs + ys)[i] == xs[i];
      } else {
        assert (xs + ys)[i] == ys[i - |xs|];
      }
    }
  }

  /** `parseAllergiesString(text)`: no terms for a falsy or blank value or
      for `"none"` in any letter case; otherwise the comma-separated pieces,
      each lower-cased, trimmed and non-empty. */
  function ParseAllergiesString(text: Value): (r: seq<string>)
    ensures !Truthy(text) || AllWhitespace(JsString(text)) || Lower(Trim(JsString(text))) == "none"
            ==> r == []
    ensures forall k :: 0 <= k < |r| ==> r[k] != [] && IsLower(r[k]) && IsTrimmed(r[k]) && ',' !in r[k]
  {
    if !Truthy(text) then []
    else
      var t := Trim(JsString(text));
      TrimEmptyIffBlank(JsString(text));
      if t == [] || Lower(t) == "none" then []
      else
        CommaTermsShape(t);
        CommaTerms(t)
  }

  /** For any other text, a term is in the result exactly when some
      comma-separated piece of the trimmed text is not blank and normalizes
      to it. */
  lemma ParseAllergiesMembers(text: Value)
    ensures Truthy(text) && !AllWhitespace(JsString(text)) && Lower(Trim(JsString(text))) != "none" ==>
              forall x :: x in ParseAllergiesString(text) <==>
                exists p :: p in Split(Trim(JsString(text)), {','}) && !AllWhitespace(p) && x == Trim(Lower(p))
  {
    if Truthy(text) && !AllWhitespace(JsString(text)) && Lower(Trim(JsString(text))) != "none" {
      var t := Trim(JsString(text));
      TrimEmptyIffBlank(JsString(text));
      assert ParseAllergiesString(text) == CommaTerms(t);
      CommaTermsMembers(t);
    }
  }

  lemma CommaTermsMembers(t: string)
    ensures forall x :: x in CommaTerms(t) <==>
              exists p :: p in Split(t, {','}) && !AllWhitespace(p) && x == Trim(Lower(p))
  {
    var ps := Split(t, {','});
    var ns := NormalizeEach(ps);
    forall i | 0 <= i < |ps|
      ensures ns[i] == NormalizedPiece(ps[i])
    {
      assert ns[i] == NormalizeString(ps[i]);
      NormalizeText(ps[i]);
    }
    NormalizedPiecesMembers(ps, ns);
  }

  /** A piece normalized: nothing when it is blank, otherwise lower-cased
      and trimmed. */
  function NormalizedPiece(p: string): string {
    if AllWhitespace(p) then [] else Trim(Lower(p))
  }

  /** A string value normalizes to its piece form. */
  lemma NormalizeText(p: string)
    ensures NormalizeString(p) == NormalizedPiece(p)
  {
    assert JsString(Str(p)) == p && !StringThrows(Str(p));
    NormalizedShape(p);
  }

  lemma NormalizedPiecesMembers(ps: seq<string>, ns: seq<string>)
    requires |ns| == |ps| && forall i :: 0 <= i < |ps| ==> ns[i] == NormalizedPiece(ps[i])
    ensures forall x :: x in KeepNonEmpty(ns) <==>
              exists p :: p in ps && !AllWhitespace(p) && x == Trim(Lower(p))
  {
    KeepNonEmptySpec(ns);
    forall x | x in KeepNonEmpty(ns)
      ensures exists p :: p in ps && !AllWhitespace(p) && x == Trim(Lower(p))
    {
      var i :| 0 <= i < |ns| && ns[i] == x;
      assert ps[i] in ps;
    }
    forall p | p in ps && !AllWhitespace(p) ensures Trim(Lower(p)) in KeepNonEmpty(ns) {
      var i :| 0 <= i < |ps| && ps[i] == p;
      NormalizedShape(p);
      assert ns[i] in ns;
    }
  }

  lemma CommaTermsShape(t: string)
    ensures forall k :: 0 <= k < |CommaTerms(t)| ==>
      CommaTerms(t)[k] != [] && IsLower(CommaTerms(t)[k]) && IsTrimmed(CommaTerms(t)[k]) && ',' !in CommaTerms(t)[k]
  {
    var ps := Split(t, {','});
    CommaTermsMembers(t);
    SplitPiecesHaveNoSeparator(t, {','});
    forall k | 0 <= k < |CommaTerms(t)|
      ensures CommaTerms(t)[k] != [] && IsLower(CommaTerms(t)[k]) && IsTrimmed(CommaTerms(t)[k]) && ',' !in CommaTerms(t)[k]
    {
      var x := CommaTerms(t)[k];
      assert x in CommaTerms(t);
      var p :| p in ps && !AllWhitespace(p) && x == Trim(Lower(p));
      NormalizedShape(p);
    }
  }

  /** Splitting on commas only: the terms of two texts joined by a comma are
      the terms of the first followed by the terms of the second, so order
      and duplicates are kept. */
  lemma CommaTermsAppend(a: string, b: string)
    ensures CommaTerms(a + [','] + b) == CommaTerms(a) + CommaTerms(b)
  {
    var pa, pb := Split(a, {','}), Split(b, {','});
    assert Split(a + [','] + b, {','}) == pa + pb by {
      SplitAtSeparator(a, b, ',', {','});
    }
    MapStringsAppend(pa, pb, NormalizeString);
    KeepNonEmptyAppend(NormalizeEach(pa), NormalizeEach(pb));
  }

  /** A text without commas is a single term: itself, normalized, or
      nothing when it is blank. */
  lemma CommaTermsSingle(p: string)
    requires ',' !in p
    ensures CommaTerms(p) == if AllWhitespace(p) then [] else [Trim(Lower(p))]
  {
    assert Split(p, {','}) == [p] by {
      SplitSingle(p, ',');
    }
    NormalizeSingle(p);
  }

  lemma NormalizeSingle(p: string)
    ensures KeepNonEmpty(NormalizeEach([p])) == if AllWhitespace(p) then [] else [Trim(Lower(p))]
  {
    var n := NormalizeString(p);
    assert NormalizeEach([p]) == [n] by {
      assert NormalizeEach([p])[0] == n;
    }
    NormalizeText(p);
    assert KeepNonEmpty([n]) == KeepNonEmpty([]) + (if n == [] then [] else [n]);
  }

  // ---------------------------------------------------------------------
  // extractProductAllergens

  /** One piece of a string value: the text after its last colon (the whole
      piece when it has none), normalized. */
  function PieceToken(part: string): string {
    var token := if ':' in part then LastPiece(part, ':') else part;
    NormalizeString(token)
  }

  /** The piece token is the normalized text after the last colon: it is
      taken from a suffix of the piece that starts at the front or right
      after a colon and holds no colon, so a piece ending in a colon yields
      nothing. */
  lemma PieceTokenSpec(part: string)
    ensures exists k :: 0 <= k <= |part| && (k == 0 || part[k - 1] == ':') && ':' !in part[k..]
                        && PieceToken(part) == NormalizeString(part[k..])
    ensures |part| > 0 && part[|part| - 1] == ':' ==> PieceToken(part) == []
    ensures ':' !in PieceToken(part)
  {
    var token := if ':' in part then LastPiece(part, ':') else part;
    var k := |part| - |token|;
    assert 0 <= k <= |part| && part[k..] == token && ':' !in token && (k == 0 || part[k - 1] == ':')
           && (|part| > 0 && part[|part| - 1] == ':' ==> token == []) by {
      LastPieceSpec(part, ':');
      if ':' in part && k > 0 {
        LastPieceBoundary(part, ':');
      }
    }
    assert PieceToken(part) == NormalizeString(token);
    assert ':' !in PieceToken(part) by {
      NormalizedShape(token);
    }
  }

  /** Concatenation of a list of lists, built from the end. */
  function Flatten(xss: seq<seq<string>>): seq<string>
    decreases |xss|
  {
    if xss == [] then [] else Flatten(xss[..|xss| - 1]) + xss[|xss| - 1]
  }

  /** What `pushTokens(value)` adds to the result set, in order: nothing for
      a falsy value, the tokens of each element for an array, and otherwise
      the piece tokens of `String(value)` split at `;` and `,`. */
  function PushedTokens(value: Value): seq<string>
    decreases value
  {
    if !Truthy(value) then []
    else if value.Arr? then
      var items := value.items;
      Flatten(seq(|items|, i requires 0 <= i < |items| => PushedTokens(items[i])))
    else
      var parts := Split(JsString(value), {';', ','});
      KeepNonEmpty(seq(|parts|, i requires 0 <= i < |parts| => PieceToken(parts[i])))
  }

  /** One entry of `allergens_tags`: a string with a colon gives the text after
      its last colon, anything else is normalized as it is. */
  function TagToken(tag: Value): string {
    var token := if tag.Str? && ':' in tag.s then Str(LastPiece(tag.s, ':')) else tag;
    NormalizeAllergen(token)
  }

  function TagTokens(tags: seq<Value>): seq<string> {
    KeepNonEmpty(seq(|tags|, i requires 0 <= i < |tags| => TagToken(tags[i])))
  }

  /** Everything `extractProductAllergens` adds to its set, in order: the
      three free-text fields, then the tag list. Only an object has fields;
      any other value (`null`, a string, a number, an array) adds nothing. */
  function ProductTokens(product: Value): seq<string> {
    if !Truthy(product) || !(product.Obj? || product.Arr?) then []
    else
      var tags := Get(product, "allergens_tags");
      PushedTokens(Get(product, "allergens"))
      + PushedTokens(Get(product, "allergens_from_user"))
      + PushedTokens(Get(product, "allergens_from_ingredients"))
      + (if tags.Arr? then TagTokens(tags.items) else [])
  }

  /** `extractProductAllergens(product)`: the set's elements in insertion
      order. */
  function ProductAllergens(product: Value): seq<string> {
    InsertAll([], ProductTokens(product))
  }

  /** Leaf strings and tags only ever produce normalized, non-empty tokens;
      tokens from string fields never contain `:`, `;` or `,`. */
  predicate IsToken(x: string) {
    x != [] && IsLower(x) && IsTrimmed(x)
  }

  predicate IsFieldToken(x: string) {
    IsToken(x) && ':' !in x && ';' !in x && ',' !in x
  }

  /** A character missing from a string is missing from its suffixes. */
  lemma SuffixKeepsOut(s: string, k: int, c: char)
    requires 0 <= k <= |s| && c !in s
    ensures c !in s[k..]
  {
    forall i | 0 <= i < |s| - k ensures s[k..][i] != c {
      assert s[k..][i] == s[k + i];
    }
  }

  /** A piece without `;` or `,` yields a field token or nothing. */
  lemma PieceTokenShape(part: string)
    requires ';' !in part && ',' !in part
    ensures PieceToken(part) == [] || IsFieldToken(PieceToken(part))
  {
    var x := PieceToken(part);
    PieceTokenSpec(part);
    var k :| 0 <= k <= |part| && x == NormalizeString(part[k..]);
    var tail := part[k..];
    assert ';' !in tail && ',' !in tail by {
      SuffixKeepsOut(part, k, ';');
      SuffixKeepsOut(part, k, ',');
    }
    NormalizeText(tail);
    var n := Trim(Lower(tail));
    assert IsLower(n) && IsTrimmed(n) && ';' !in n && ',' !in n by {
      NormalizedShape(tail);
    }
  }

  lemma {:induction false} PushedTokensShape(value: Value)
    ensures forall x :: x in PushedTokens(value) ==> IsFieldToken(x)
    decreases value
  {
    if Truthy(value) {
      if value.Arr? {
        var items := value.items;
        var m := seq(|items|, i requires 0 <= i < |items| => PushedTokens(items[i]));
        forall i | 0 <= i < |items| ensures forall x :: x in m[i] ==> IsFieldToken(x) {
          PushedTokensShape(items[i]);
        }
        FlattenMembers(m);
      } else {
        var parts := Split(JsString(value), {';', ','});
        var ts := seq(|parts|, i requires 0 <= i < |parts| => PieceToken(parts[i]));
        KeepNonEmptySpec(ts);
        SplitPiecesHaveNoSeparator(JsString(value), {';', ','});
        forall i | 0 <= i < |parts| ensures ts[i] == [] || IsFieldToken(ts[i]) {
          PieceTokenShape(parts[i]);
        }
      }
    }
  }

  lemma {:induction false} FlattenMembers(xss: seq<seq<string>>)
    ensures forall x :: x in Flatten(xss) <==> exists i :: 0 <= i < |xss| && x in xss[i]
    decreases |xss|
  {
    if xss != [] {
      var init := xss[..|xss| - 1];
      FlattenMembers(init);
      forall x | x in Flatten(xss) ensures exists i :: 0 <= i < |xss| && x in xss[i] {
        if x in Flatten(init) {
          var i :| 0 <= i < |init| && x in init[i];
          assert x in xss[i];
        } else {
          assert x in xss[|xss| - 1];
        }
      }
      forall x, i | 0 <= i < |xss| && x in xss[i] ensures x in Flatten(xss) {
        if i < |xss| - 1 {
          assert x in init[i];
        }
      }
    }
  }

  /** A string tag is treated like a piece of a free-text field. */
  lemma TagTokenOfString(s: string)
    ensures TagToken(Str(s)) == PieceToken(s)
  {
  }

  /** Every tag token is non-empty, lower-case and trimmed. A string tag
      gives the normalized text after its last colon (all of it when there
      is no colon), and nothing when it ends in a colon. */
  lemma TagTokensShape(tags: seq<Value>)
    ensures forall x :: x in TagTokens(tags) ==> IsToken(x)
    ensures forall i :: 0 <= i < |tags| && tags[i].Str? ==>
              exists k :: 0 <= k <= |tags[i].s| && (k == 0 || tags[i].s[k - 1] == ':') && ':' !in tags[i].s[k..]
                          && TagToken(tags[i]) == NormalizeString(tags[i].s[k..])
    ensures forall i :: 0 <= i < |tags| && tags[i].Str? && |tags[i].s| > 0 && tags[i].s[|tags[i].s| - 1] == ':' ==>
              TagToken(tags[i]) == []
    ensures forall i :: 0 <= i < |tags| && tags[i].Str? ==> ':' !in TagToken(tags[i])
  {
    KeepNonEmptySpec(seq(|tags|, i requires 0 <= i < |tags| => TagToken(tags[i])));
    forall i | 0 <= i < |tags| && tags[i].Str?
      ensures exists k :: 0 <= k <= |tags[i].s| && (k == 0 || tags[i].s[k - 1] == ':') && ':' !in tags[i].s[k..]
                          && TagToken(tags[i]) == NormalizeString(tags[i].s[k..])
      ensures |tags[i].s| > 0 && tags[i].s[|tags[i].s| - 1] == ':' ==> TagToken(tags[i]) == []
      ensures ':' !in TagToken(tags[i])
    {
      TagTokenOfString(tags[i].s);
      PieceTokenSpec(tags[i].s);
    }
  }

  /** `extractProductAllergens` gives no tokens for a value that is not an
      object; its result has no duplicates, every element is non-empty,
      lower-cased and trimmed, and it holds exactly the tokens the fields
      contribute. */
  lemma ProductAllergensSpec(product: Value)
    ensures !product.Obj? ==> ProductAllergens(product) == []
    ensures NoDup(ProductAllergens(product))
    ensures forall x :: x in ProductAllergens(product) ==> IsToken(x)
    ensures forall x :: x in ProductAllergens(product) <==> x in ProductTokens(product)
  {
    InsertAllSpec([], ProductTokens(product));
    if Truthy(product) && (product.Obj? || product.Arr?) {
      var tags := Get(product, "allergens_tags");
      PushedTokensShape(Get(product, "allergens"));
      PushedTokensShape(Get(product, "allergens_from_user"));
      PushedTokensShape(Get(product, "allergens_from_ingredients"));
      if tags.Arr? {
        TagTokensShape(tags.items);
      }
    }
  }

  /** One more element through the filter. */
  lemma KeepNonEmptyStep(ts: seq<string>, j: int)
    requires 0 <= j < |ts|
    ensures KeepNonEmpty(ts[..j + 1]) == KeepNonEmpty(ts[..j]) + (if ts[j] == [] then [] else [ts[j]])
  {
    assert ts[..j + 1][..j] == ts[..j];
  }

  /** One more element's tokens. */
  lemma FlattenStep(m: seq<seq<string>>, i: int)
    requires 0 <= i < |m|
    ensures Flatten(m[..i + 1]) == Flatten(m[..i]) + m[i]
  {
    assert m[..i + 1][..i] == m[..i];
  }

  /** The imperative `pushTokens`: adds the tokens of `value` to `results`. */
  method PushTokens(value: Value, results: StringSet)
    requires results.Valid()
    modifies results
    ensures results.Valid()
    ensures results.elems == InsertAll(old(results.elems), PushedTokens(value))
    decreases value
  {
    if !Truthy(value) {
      return;
    }
    ghost var start := results.elems;
    if value.Arr? {
      var items := value.items;
      ghost var m := seq(|items|, i requires 0 <= i < |items| => PushedTokens(items[i]));
      ghost var added: seq<string> := [];
      var i := 0;
      while i < |items|
        invariant 0 <= i <= |items|
        invariant results.Valid()
        invariant added == Flatten(m[..i])
        invariant results.elems == InsertAll(start, added)
      {
        FlattenStep(m, i);
        InsertAllAppend(start, added, m[i]);
        PushTokens(items[i], results);
        added := added + m[i];
        i := i + 1;
      }
      assert m[..|items|] == m;
    } else {
      var parts := Split(JsString(value), {';', ','});
      ghost var ts := seq(|parts|, i requires 0 <= i < |parts| => PieceToken(parts[i]));
      ghost var kept: seq<string> := [];
      var j := 0;
      while j < |parts|
        invariant 0 <= j <= |parts|
        invariant results.Valid()
        invariant kept == KeepNonEmpty(ts[..j])
        invariant results.elems == InsertAll(start, kept)
      {
        var part := parts[j];
        var token := if ':' in part then LastPiece(part, ':') else part;
        var norm := NormalizeAllergen(Str(token));
        assert norm == ts[j];
        KeepNonEmptyStep(ts, j);
        if norm != [] {
          InsertAllSnoc(start, kept, norm);
          results.Add(norm);
          kept := kept + [norm];
        }
        j := j + 1;
      }
      assert ts[..|parts|] == ts;
    }
  }

  /** Adding the tags after the free-text fields. */
  method PushTags(items: seq<Value>, results: StringSet)
    requires results.Valid()
    modifies results
    ensures results.Valid()
    ensures results.elems == InsertAll(old(results.elems), TagTokens(items))
  {
    ghost var start := results.elems;
    ghost var ts := seq(|items|, i requires 0 <= i < |items| => TagToken(items[i]));
    ghost var kept: seq<string> := [];
    var i := 0;
    while i < |items|
      invariant 0 <= i <= |items|
      invariant results.Valid()
      invariant kept == KeepNonEmpty(ts[..i])
      invariant results.elems == InsertAll(start, kept)
    {
      var tag := items[i];
      var token := if tag.Str? && ':' in tag.s then Str(LastPiece(tag.s, ':')) else tag;
      var norm := NormalizeAllergen(token);
      assert ts[i] == TagToken(items[i]);
      assert norm == ts[i];
      KeepNonEmptyStep(ts, i);
      if norm != [] {
        InsertAllSnoc(start, kept, norm);
        results.Add(norm);
        kept := kept + [norm];
      }
      i := i + 1;
    }
    assert ts[..|items|] == ts;
  }

  /** `extractProductAllergens(product)`, imperatively. */
  method ExtractProductAllergens(product: Value) returns (r: seq<string>)
    ensures r == ProductAllergens(product)
    ensures NoDup(r)
  {
    if !Truthy(product) || !(product.Obj? || product.Arr?) {
      return [];
    }
    var results := new StringSet();
    ghost var t1 := PushedTokens(Get(product, "allergens"));
    ghost var t2 := PushedTokens(Get(product, "allergens_from_user"));
    ghost var t3 := PushedTokens(Get(product, "allergens_from_ingredients"));
    PushTokens(Get(product, "allergens"), results);
    PushTokens(Get(product, "allergens_from_user"), results);
    InsertAllAppend([], t1, t2);
    PushTokens(Get(product, "allergens_from_ingredients"), results);
    InsertAllAppend([], t1 + t2, t3);
    var tags := Get(product, "allergens_tags");
    ghost var t4 := if tags.Arr? then TagTokens(tags.items) else [];
    if tags.Arr? {
      PushTags(tags.items, results);
    }
    InsertAllAppend([], t1 + t2 + t3, t4);
    r := results.elems;
  }

  // ---------------------------------------------------------------------
  // matchAllergens

  /** The test of line 258: equal, or one contains the other. */
  predicate Related(ua: string, pa: string) {
    ua == pa || Contains(ua, pa) || Contains(pa, ua)
  }

  /** A user term and a product token match when neither is empty and they
      are related. */
  predicate Matches(ua: string, pa: string) {
    ua != [] && pa != [] && Related(ua, pa)
  }

  /** The tokens the inner loop adds for the user term `ua`, in order. */
  function MatchesFor(ua: string, products: seq<string>): seq<string>
    decreases |products|
  {
    if products == [] then []
    else
      var pa := products[|products| - 1];
      MatchesFor(ua, products[..|products| - 1]) + (if Matches(ua, pa) then [pa] else [])
  }

  /** The tokens both loops add, in order: user term by user term. */
  function MatchCandidates(users: seq<string>, products: seq<string>): seq<string>
    decreases |users|
  {
    if users == [] then []
    else MatchCandidates(users[..|users| - 1], products) + MatchesFor(users[|users| - 1], products)
  }

  /** `matchAllergens(userList, productList)`; `None` stands for an
      argument that is not an array. */
  function MatchedAllergens(userList: Option<seq<string>>, productList: Option<seq<string>>): seq<string> {
    if userList.None? || productList.None? then []
    else InsertAll([], MatchCandidates(userList.value, productList.value))
  }

  lemma {:induction false} MatchesForMembers(ua: string, products: seq<string>)
    ensures forall pa :: pa in MatchesFor(ua, products) <==> pa in products && Matches(ua, pa)
    decreases |products|
  {
    if products != [] {
      var init := products[..|products| - 1];
      MatchesForMembers(ua, init);
      assert products == init + [products[|products| - 1]];
    }
  }

  lemma {:induction false} MatchCandidatesMembers(users: seq<string>, products: seq<string>)
    ensures forall pa :: pa in MatchCandidates(users, products) <==>
              pa in products && exists ua :: ua in users && Matches(ua, pa)
    decreases |users|
  {
    if users != [] {
      var init := users[..|users| - 1];
      var last := users[|users| - 1];
      MatchCandidatesMembers(init, products);
      MatchesForMembers(last, products);
      assert users == init + [last];
      forall pa | pa in products && (exists ua :: ua in users && Matches(ua, pa))
        ensures pa in MatchCandidates(users, products)
      {
        var ua :| ua in users && Matches(ua, pa);
        if ua != last {
          assert ua in init;
        }
      }
    }
  }

  /** `matchAllergens` gives nothing when an argument is not an array or
      there are no user terms; otherwise a duplicate-free list holding
      exactly the non-empty product tokens that equal, contain or are
      contained in some non-empty user term. */
  lemma MatchedAllergensSpec(userList: Option<seq<string>>, productList: Option<seq<string>>)
    ensures userList.None? || productList.None? || userList == Some([]) ==> MatchedAllergens(userList, productList) == []
    ensures NoDup(MatchedAllergens(userList, productList))
    ensures forall pa :: pa in MatchedAllergens(userList, productList) <==>
              userList.Some? && productList.Some? && pa in productList.value && pa != []
              && exists ua :: ua in userList.value && ua != [] && Related(ua, pa)
  {
    if userList.Some? && productList.Some? {
      var users, products := userList.value, productList.value;
      InsertAllSpec([], MatchCandidates(users, products));
      MatchCandidatesMembers(users, products);
    }
  }

  /** One more product token through the inner loop. */
  lemma MatchesForStep(ua: string, products: seq<string>, j: int)
    requires 0 <= j < |products|
    ensures MatchesFor(ua, products[..j + 1])
         == MatchesFor(ua, products[..j]) + (if Matches(ua, products[j]) then [products[j]] else [])
  {
    assert products[..j + 1][..j] == products[..j];
  }

  /** One more user term through the outer loop. */
  lemma MatchCandidatesStep(users: seq<string>, products: seq<string>, i: int)
    requires 0 <= i < |users|
    ensures MatchCandidates(users[..i + 1], products)
         == MatchCandidates(users[..i], products) + MatchesFor(users[i], products)
  {
    assert users[..i + 1][..i] == users[..i];
  }

  /** The inner `productList.forEach` for one user term `ua`. */
  method AddMatchesFor(ua: string, products: seq<string>, matches: StringSet)
    requires matches.Valid()
    modifies matches
    ensures matches.Valid()
    ensures matches.elems == InsertAll(old(matches.elems), MatchesFor(ua, products))
  {
    ghost var before := matches.elems;
    ghost var added: seq<string> := [];
    var j := 0;
    while j < |products|
      invariant 0 <= j <= |products|
      invariant matches.Valid()
      invariant added == MatchesFor(ua, products[..j])
      invariant matches.elems == InsertAll(before, added)
    {
      var pa := products[j];
      MatchesForStep(ua, products, j);
      if ua != [] && pa != [] {
        if Related(ua, pa) {
          InsertAllSnoc(before, added, pa);
          matches.Add(pa);
          added := added + [pa];
        }
      }
      j := j + 1;
    }
    assert products[..|products|] == products;
  }

  /** `matchAllergens`, imperatively: for each user term, for each product
      token, add the token when they match. */
  method MatchAllergens(userList: Option<seq<string>>, productList: Option<seq<string>>) returns (r: seq<string>)
    ensures r == MatchedAllergens(userList, productList)
    ensures NoDup(r)
  {
    if userList.None? || productList.None? {
      return [];
    }
    var users, products := userList.value, productList.value;
    var matches := new StringSet();
    ghost var added: seq<string> := [];
    var i := 0;
    while i < |users|
      invariant 0 <= i <= |users|
      invariant matches.Valid()
      invariant added == MatchCandidates(users[..i], products)
      invariant matches.elems == InsertAll([], added)
    {
      MatchCandidatesStep(users, products, i);
      InsertAllAppend([], added, MatchesFor(users[i], products));
      AddMatchesFor(users[i], products, matches);
      added := added + MatchesFor(users[i], products);
      i := i + 1;
    }
    assert users[..|users|] == users;
    r := matches.elems;
  }

  // ---------------------------------------------------------------------
  // dedupeWarnings

  /** The key `String(w).toLowerCase().trim()` a warning is compared by. */
  function WarningKey(w: Value): string {
    Trim(Lower(JsString(w)))
  }

  /** `dedupeWarnings(arr)` */
  function DedupedWarnings(arr: seq<Value>): seq<Value> {
    DedupeBy(arr, WarningKey)
  }

  /** `dedupeWarnings`, imperatively, with the `seen` set of keys. */
  method DedupeWarnings(arr: seq<Value>) returns (result: seq<Value>)
    ensures result == DedupedWarnings(arr)
  {
    var seen := new StringSet();
    result := [];
    for i := 0 to |arr|
      invariant seen.Valid()
      invariant forall k :: k in seen.elems <==> k in KeySet(arr[..i], WarningKey)
      invariant result == DedupeBy(arr[..i], WarningKey)
    {
      var w := arr[i];
      var key := Trim(Lower(JsString(w)));
      DedupeStep(arr, WarningKey, i);
      var has := seen.Has(key);
      if !has {
        seen.Add(key);
        result := result + [w];
      }
    }
    assert arr[..|arr|] == arr;
  }

  // ---------------------------------------------------------------------
  // The merge at lines 169-171

  /** The fixed text of an allergen alert. */
  const AlertPrefix: string := "Allergen alert: contains "

  /** The alert shown for a matched product token. */
  function AllergenAlert(token: string): Value {
    Str(AlertPrefix + token)
  }

  function AlertsFor(matched: seq<string>): seq<Value> {
    seq(|matched|, i requires 0 <= i < |matched| => AllergenAlert(matched[i]))
  }

  /** The alerts are exactly one per matched token. */
  lemma AlertsForMembers(matched: seq<string>)
    ensures forall w :: w in AlertsFor(matched) <==> exists t :: t in matched && w == AllergenAlert(t)
  {
    var alerts := AlertsFor(matched);
    forall w | w in alerts ensures exists t :: t in matched && w == AllergenAlert(t) {
      var i :| 0 <= i < |alerts| && alerts[i] == w;
      assert matched[i] in matched;
    }
    forall t | t in matched ensures AllergenAlert(t) in alerts {
      var i :| 0 <= i < |matched| && matched[i] == t;
      assert alerts[i] == AllergenAlert(t);
    }
  }

  /** `Array.isArray(warnings) ? warnings : []` */
  function ServerWarnings(warnings: Value): seq<Value> {
    if warnings.Arr? then warnings.items else []
  }

  /** The warnings the scanner page shows after a successful lookup: the
      server's, then one alert per allergen matched between the saved
      allergy text and the product, without duplicates. `serverWarnings` is
      the `warnings` field of the analysis response, `profileAllergies` the
      saved allergy text (`Null` when there is none). */
  function CombinedWarnings(serverWarnings: Value, profileAllergies: Value, product: Value): seq<Value> {
    var userAllergens := ParseAllergiesString(profileAllergies);
    var productAllergens := ProductAllergens(product);
    var matched := MatchedAllergens(Some(userAllergens), Some(productAllergens));
    DedupedWarnings(ServerWarnings(serverWarnings) + AlertsFor(matched))
  }

  lemma LowerAlertPrefix()
    ensures Lower(AlertPrefix) == "allergen alert: contains "
  {
  }

  /** The key of an alert is the alert in lower case: the fixed text is
      lower-cased and a token is already lower-case and trimmed. */
  lemma AlertKey(token: string)
    requires IsToken(token)
    ensures WarningKey(AllergenAlert(token)) == "allergen alert: contains " + token
  {
    LowerAppend(AlertPrefix, token);
    LowerOfLower(token);
    LowerAlertPrefix();
    AlertKeyTrimmed(token);
  }

  lemma AlertKeyTrimmed(token: string)
    requires IsToken(token)
    ensures Trim("allergen alert: contains " + token) == "allergen alert: contains " + token
  {
    var k := "allergen alert: contains " + token;
    assert k[0] == 'a' && k[|k| - 1] == token[|token| - 1];
    TrimIdempotent(k);
  }

  /** The merged list has no two warnings with the same key; it starts with
      the deduplicated server warnings; it holds the key of every server
      warning and the alert of every product allergen that matches a user
      term; every warning in it is a server warning or the alert of a
      matched token, and its keys are exactly those of the server warnings
      and of the alerts; and with no user terms (blank text, `"none"`), it is
      just the deduplicated server warnings. */
  lemma CombinedWarningsSpec(serverWarnings: Value, profileAllergies: Value, product: Value, token: string)
    ensures DistinctKeys(CombinedWarnings(serverWarnings, profileAllergies, product), WarningKey)
    ensures DedupedWarnings(ServerWarnings(serverWarnings)) <= CombinedWarnings(serverWarnings, profileAllergies, product)
    ensures KeySet(ServerWarnings(serverWarnings), WarningKey) <= KeySet(CombinedWarnings(serverWarnings, profileAllergies, product), WarningKey)
    ensures token in ProductAllergens(product)
            && (exists ua :: ua in ParseAllergiesString(profileAllergies) && Related(ua, token))
            ==> "allergen alert: contains " + token in KeySet(CombinedWarnings(serverWarnings, profileAllergies, product), WarningKey)
    ensures forall w :: w in CombinedWarnings(serverWarnings, profileAllergies, product) ==>
              w in ServerWarnings(serverWarnings)
              || exists t :: t in MatchedAllergens(Some(ParseAllergiesString(profileAllergies)), Some(ProductAllergens(product)))
                             && w == AllergenAlert(t)
    ensures KeySet(CombinedWarnings(serverWarnings, profileAllergies, product), WarningKey)
            == KeySet(ServerWarnings(serverWarnings), WarningKey)
               + KeySet(AlertsFor(MatchedAllergens(Some(ParseAllergiesString(profileAllergies)), Some(ProductAllergens(product)))), WarningKey)
    ensures ParseAllergiesString(profileAllergies) == []
            ==> CombinedWarnings(serverWarnings, profileAllergies, product) == DedupedWarnings(ServerWarnings(serverWarnings))
  {
    var server := ServerWarnings(serverWarnings);
    var users := ParseAllergiesString(profileAllergies);
    var products := ProductAllergens(product);
    var alerts := AlertsFor(MatchedAllergens(Some(users), Some(products)));
    assert CombinedWarnings(serverWarnings, profileAllergies, product) == DedupedWarnings(server + alerts);
    DedupeAppendSpec(server, alerts, WarningKey);
    AlertsForMembers(MatchedAllergens(Some(users), Some(products)));
    if token in products && (exists ua :: ua in users && Related(ua, token)) {
      ProductAllergensSpec(product);
      var ua :| ua in users && Related(ua, token);
      assert ua != [];
      MatchedAlertKey(users, products, token);
    }
    if users == [] {
      MatchedAllergensSpec(Some(users), Some(products));
      assert alerts == [];
    }
  }

  /** A product token related to a non-empty user term has its alert among
      the alerts. */
  lemma MatchedAlertKey(users: seq<string>, products: seq<string>, token: string)
    requires token in products && IsToken(token)
    requires exists ua :: ua in users && ua != [] && Related(ua, token)
    ensures "allergen alert: contains " + token in KeySet(AlertsFor(MatchedAllergens(Some(users), Some(products))), WarningKey)
  {
    var matched := MatchedAllergens(Some(users), Some(products));
    var alerts := AlertsFor(matched);
    MatchedAllergensSpec(Some(users), Some(products));
    assert token in matched;
    var i :| 0 <= i < |matched| && matched[i] == token;
    KeySetMembers(alerts, WarningKey);
    AlertKey(token);
    assert WarningKey(alerts[i]) == "allergen alert: contains " + token;
  }
}
