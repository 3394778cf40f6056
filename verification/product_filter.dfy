/** The product catalogue filter: a product passes when it meets every
    criterion that is set — a price ceiling, a rating floor, a list of
    categories, a stock flag and a name search matched word by word. */
module ProductFilter {
  import opened Wrappers
  import opened Text
  import opened Normalization

  /** A catalogue entry as read from JSON; name and category may be null. */
  datatype Product = Product(name: Option<string>, category: Option<string>, price: real, rating: real, inStock: bool)

  /** The criteria; `None` is an unset (null) criterion. A fresh parameter
      object has an empty, not a null, category list. */
  datatype FilterParams = FilterParams(
    maxPrice: Option<real>,
    minRating: Option<real>,
    categories: Option<seq<Option<string>>>,
    inStock: Option<bool>,
    nameContains: Option<string>)

  /** `new FilterParams()`: nothing set. */
  function NoFilter(): FilterParams {
    FilterParams(None, None, Some([]), None, None)
  }

  // ---------------------------------------------------------------------
  // Name search
  // ---------------------------------------------------------------------

  /** Some word of `words` begins with `token`: the reference meaning of
      `productTokens.Any(pt => pt.StartsWith(token))`. */
  predicate Covers(words: seq<string>, token: string) {
    exists k :: 0 <= k < |words| && token <= words[k]
  }

  /** `words.Any(pt => pt.StartsWith(token))`, scanning left to right. */
  function AnyStartsWith(words: seq<string>, token: string): (r: bool)
    ensures r <==> Covers(words, token)
  {
    if |words| == 0 then false
    else if token <= words[0] then true
    else
      assert forall k :: 1 <= k < |words| ==> words[k] == words[1..][k - 1];
      AnyStartsWith(words[1..], token)
  }

  /** `tokens.All(token => words.Any(...))`. */
  function AllCovered(tokens: seq<string>, words: seq<string>): (r: bool)
    ensures r <==> forall j :: 0 <= j < |tokens| ==> Covers(words, tokens[j])
  {
    if |tokens| == 0 then true
    else
      assert forall j :: 1 <= j < |tokens| ==> tokens[j] == tokens[1..][j - 1];
      AnyStartsWith(words, tokens[0]) && AllCovered(tokens[1..], words)
  }

  /** `Program.NameTokenMatch`: every word of the normalised search is the
      beginning of some word of the normalised product name. */
  function NameTokenMatch(name: Option<string>, search: Option<string>): (r: bool)
    ensures r <==> forall j :: 0 <= j < |Split(Normalize(search))| ==>
                     Covers(Split(Normalize(name)), Split(Normalize(search))[j])
  {
    AllCovered(Split(Normalize(search)), Split(Normalize(name)))
  }

  /** The words compared are those of the lower-cased text with every
      character outside `[a-z0-9 ]` deleted: a search matches exactly when
      each of its words begins some word of the name. */
  lemma NameTokenMatchMeaning(name: string, search: string)
    ensures NameTokenMatch(Some(name), Some(search)) <==>
      forall j :: 0 <= j < |Split(Clean(search))| ==> Covers(Split(Clean(name)), Split(Clean(search))[j])
  {
    NormalizeKeepsWords(name);
    NormalizeKeepsWords(search);
  }

  /** A search with no words (blank, or punctuation only) matches every name,
      a missing one included. */
  lemma WordlessSearchMatchesAll(name: Option<string>, search: Option<string>)
    requires Split(Normalize(search)) == []
    ensures NameTokenMatch(name, search)
  {
  }

  /** Every name matches a search for itself. */
  lemma NameMatchesItself(name: Option<string>)
    ensures NameTokenMatch(name, name)
  {
    var words := Split(Normalize(name));
    forall j | 0 <= j < |words|
      ensures Covers(words, words[j])
    {
      assert words[j] <= words[j];
    }
  }

  /** The search ignores case. */
  lemma NameMatchIgnoresCase(name: Option<string>, search: string)
    ensures NameTokenMatch(name, Some(ToUpper(search))) == NameTokenMatch(name, Some(search))
  {
    NormalizeIgnoresCase(search);
  }

  /** Dropping words from the search can only widen the match: a search
      matches whenever a longer one made of its words followed by others
      does. */
  lemma FewerWordsMatchMore(tokens: seq<string>, more: seq<string>, words: seq<string>)
    requires AllCovered(tokens + more, words)
    ensures AllCovered(tokens, words)
  {
    assert forall j :: 0 <= j < |tokens| ==> tokens[j] == (tokens + more)[j];
  }

  // ---------------------------------------------------------------------
  // Categories
  // ---------------------------------------------------------------------

  /** `Where(cat => !IsNullOrWhiteSpace(cat)).Select(cat => cat.Trim())`. */
  function TrimmedNonBlank(cats: seq<Option<string>>): (r: seq<string>)
    ensures |r| <= |cats|
  {
    if |cats| == 0 then []
    else if IsNullOrWhiteSpace(cats[0]) then TrimmedNonBlank(cats[1..])
    else [Trim(cats[0].value)] + TrimmedNonBlank(cats[1..])
  }

  /** The kept categories are exactly the trimmed non-blank entries. */
  lemma {:induction false} TrimmedNonBlankMembers(cats: seq<Option<string>>)
    ensures forall c :: c in TrimmedNonBlank(cats) <==>
      exists k :: 0 <= k < |cats| && !IsNullOrWhiteSpace(cats[k]) && c == Trim(cats[k].value)
  {
    if |cats| > 0 {
      TrimmedNonBlankMembers(cats[1..]);
      assert forall k :: 1 <= k < |cats| ==> cats[k] == cats[1..][k - 1];
    }
  }

  /** The category list after blanks are dropped and the rest trimmed; a
      null list stays null. */
  function ValidCategories(cats: Option<seq<Option<string>>>): (r: Option<seq<string>>)
    ensures r.None? <==> cats.None?
    ensures r.Some? ==> forall c :: c in r.value <==>
      exists k :: 0 <= k < |cats.value| && !IsNullOrWhiteSpace(cats.value[k]) && c == Trim(cats.value[k].value)
  {
    if cats.None? then None
    else
      TrimmedNonBlankMembers(cats.value);
      Some(TrimmedNonBlank(cats.value))
  }

  /** `string.Equals(a, b, StringComparison.OrdinalIgnoreCase)` for a
      non-null `a`: a null `b` never equals it. */
  predicate EqualsIgnoreCase(a: string, b: Option<string>) {
    b.Some? && ToUpper(a) == ToUpper(b.value)
  }

  /** `p.Category?.Trim()`. */
  function TrimmedCategory(category: Option<string>): (r: Option<string>)
    ensures r.None? <==> category.None?
  {
    if category.None? then None else Some(Trim(category.value))
  }

  /** `validCategories.Any(cat => string.Equals(cat, category, ...))`. */
  function AnyEqualsIgnoreCase(valid: seq<string>, category: Option<string>): (r: bool)
    ensures r <==> exists k :: 0 <= k < |valid| && EqualsIgnoreCase(valid[k], category)
  {
    if |valid| == 0 then false
    else if EqualsIgnoreCase(valid[0], category) then true
    else
      assert forall k :: 1 <= k < |valid| ==> valid[k] == valid[1..][k - 1];
      AnyEqualsIgnoreCase(valid[1..], category)
  }

  // ---------------------------------------------------------------------
  // The filter
  // ---------------------------------------------------------------------

  predicate PriceOk(f: FilterParams, p: Product) {
    f.maxPrice.None? || p.price <= f.maxPrice.value
  }

  predicate RatingOk(f: FilterParams, p: Product) {
    f.minRating.None? || p.rating >= f.minRating.value
  }

  /** A null or empty category list (after dropping blanks) admits every
      product; otherwise the product's trimmed category must equal one of
      the listed ones, ignoring case. */
  predicate CategoryOk(valid: Option<seq<string>>, p: Product) {
    valid.None? || |valid.value| == 0 || AnyEqualsIgnoreCase(valid.value, TrimmedCategory(p.category))
  }

  predicate StockOk(f: FilterParams, p: Product) {
    f.inStock.None? || p.inStock == f.inStock.value
  }

  predicate NameOk(f: FilterParams, p: Product) {
    IsNullOrWhiteSpace(f.nameContains) || NameTokenMatch(p.name, f.nameContains)
  }

  /** The lambda `FilterProducts` passes to `Where`. */
  predicate Matches(f: FilterParams, p: Product) {
    PriceOk(f, p) && RatingOk(f, p) && CategoryOk(ValidCategories(f.categories), p)
    && StockOk(f, p) && NameOk(f, p)
  }

  /** `Where(...)` over a list, the category list already cleaned. */
  function Keep(ps: seq<Product>, f: FilterParams, valid: Option<seq<string>>): (r: seq<Product>)
    requires valid == ValidCategories(f.categories)
    ensures |r| <= |ps|
  {
    if |ps| == 0 then []
    else if Matches(f, ps[0]) then [ps[0]] + Keep(ps[1..], f, valid)
    else Keep(ps[1..], f, valid)
  }

  /** `Program.FilterProducts`: the products meeting every set criterion, in
      catalogue order. */
  function FilterProducts(ps: seq<Product>, f: FilterParams): (r: seq<Product>)
    ensures |r| <= |ps|
    ensures forall p :: p in r <==> p in ps && Matches(f, p)
  {
    KeepMembers(ps, f);
    Keep(ps, f, ValidCategories(f.categories))
  }

  lemma {:induction false} KeepMembers(ps: seq<Product>, f: FilterParams)
    ensures forall p :: p in Keep(ps, f, ValidCategories(f.categories)) <==> p in ps && Matches(f, p)
  {
    if |ps| > 0 {
      KeepMembers(ps[1..], f);
      assert ps == [ps[0]] + ps[1..];
    }
  }

  /** `sub` is `s` with some elements deleted, the rest in order. */
  predicate IsSubsequence<T(==)>(sub: seq<T>, s: seq<T>)
    decreases |s|
  {
    |sub| == 0 || (|s| > 0 && ((sub[0] == s[0] && IsSubsequence(sub[1..], s[1..])) || IsSubsequence(sub, s[1..])))
  }

  /** The result keeps the catalogue's order, and each product appears as
      often as in the catalogue when it matches and not at all otherwise. */
  lemma {:induction false} FilterKeepsOrderAndCount(ps: seq<Product>, f: FilterParams)
    ensures IsSubsequence(FilterProducts(ps, f), ps)
    ensures forall p :: multiset(FilterProducts(ps, f))[p] == if Matches(f, p) then multiset(ps)[p] else 0
  {
    if |ps| > 0 {
      FilterKeepsOrderAndCount(ps[1..], f);
      assert ps == [ps[0]] + ps[1..];
      assert multiset(ps) == multiset{ps[0]} + multiset(ps[1..]);
    }
  }

  /** Filtering a filtered list again changes nothing. */
  lemma {:induction false} FilterIdempotent(ps: seq<Product>, f: FilterParams)
    ensures FilterProducts(FilterProducts(ps, f), f) == FilterProducts(ps, f)
  {
    if |ps| > 0 {
      FilterIdempotent(ps[1..], f);
      if Matches(f, ps[0]) {
        assert ([ps[0]] + FilterProducts(ps[1..], f))[1..] == FilterProducts(ps[1..], f);
      }
    }
  }

  /** Two filters applied one after the other give the same list in either
      order. */
  lemma {:induction false} FilterCommutes(ps: seq<Product>, f: FilterParams, g: FilterParams)
    ensures FilterProducts(FilterProducts(ps, f), g) == FilterProducts(FilterProducts(ps, g), f)
  {
    if |ps| > 0 {
      FilterCommutes(ps[1..], f, g);
      var x := ps[0];
      var fr := FilterProducts(ps[1..], f);
      var gr := FilterProducts(ps[1..], g);
      if Matches(f, x) {
        assert ([x] + fr)[1..] == fr;
      }
      if Matches(g, x) {
        assert ([x] + gr)[1..] == gr;
      }
    }
  }

  /** With nothing set, every product passes. */
  lemma {:induction false} NoFilterKeepsAll(ps: seq<Product>)
    ensures FilterProducts(ps, NoFilter()) == ps
  {
    if |ps| > 0 {
      NoFilterKeepsAll(ps[1..]);
      assert [ps[0]] + ps[1..] == ps;
    }
  }

  /** A blank or null entry in the category list changes nothing. */
  lemma BlankCategoryIgnored(ps: seq<Product>, f: FilterParams, blank: Option<string>, cats: seq<Option<string>>)
    requires IsNullOrWhiteSpace(blank)
    ensures FilterProducts(ps, f.(categories := Some([blank] + cats))) == FilterProducts(ps, f.(categories := Some(cats)))
  {
    assert ([blank] + cats)[1..] == cats;
    var g := f.(categories := Some([blank] + cats));
    var h := f.(categories := Some(cats));
    assert ValidCategories(g.categories) == ValidCategories(h.categories);
    SameCriteriaSameResult(ps, g, h);
  }

  /** Parameters that admit the same products give the same result. */
  lemma {:induction false} SameCriteriaSameResult(ps: seq<Product>, f: FilterParams, g: FilterParams)
    requires forall p :: Matches(f, p) == Matches(g, p)
    ensures FilterProducts(ps, f) == FilterProducts(ps, g)
  {
    if |ps| > 0 {
      SameCriteriaSameResult(ps[1..], f, g);
    }
  }

  /** A listed category admits a product whose category differs from it only
      in letter case and surrounding white space. */
  lemma CategoryIgnoresCaseAndSpaces(listed: string, category: string, p: Product)
    requires !IsNullOrWhiteSpace(Some(listed))
    requires p.category == Some(category) && ToUpper(Trim(category)) == ToUpper(Trim(listed))
    ensures CategoryOk(ValidCategories(Some([Some(listed)])), p)
  {
    var valid := ValidCategories(Some([Some(listed)])).value;
    assert Trim(listed) in valid;
  }

  /** A product passes exactly when it meets each criterion that is set. */
  lemma FilterRespectsCriteria(ps: seq<Product>, f: FilterParams, p: Product)
    requires p in ps
    ensures p in FilterProducts(ps, f) <==>
      (f.maxPrice.Some? ==> p.price <= f.maxPrice.value)
      && (f.minRating.Some? ==> p.rating >= f.minRating.value)
      && (f.inStock.Some? ==> p.inStock == f.inStock.value)
      && (!IsNullOrWhiteSpace(f.nameContains) ==> NameTokenMatch(p.name, f.nameContains))
      && CategoryOk(ValidCategories(f.categories), p)
  {
  }
}
