/** The model-list helper `get_available_gemini_models`: keep the names of the
    listed models that are Gemini models able to generate content, sort them in
    descending order, and fall back to one known model if listing raises. The
    listing service is an input: the models it yielded and whether it then
    raised. */
module Models {

  /** One entry yielded by the model listing. */
  datatype ModelInfo = ModelInfo(name: string, supportedGenerationMethods: seq<string>)

  /** The entries the listing yielded, and whether it raised after them (a
      listing that raises at once yields no entries). */
  datatype Listing = Listing(models: seq<ModelInfo>, fails: bool)

  const DefaultModel: string := "models/gemini-1.5-flash"
  const GenerateContent: string := "generateContent"
  const Gemini: string := "gemini"

  /** Python's `sub in s` on strings. */
  predicate ContainsSubstring(s: string, sub: string)
    decreases |s|
  {
    sub <= s || (s != [] && ContainsSubstring(s[1..], sub))
  }

  /** The filter condition applied to each listed model. */
  predicate Eligible(m: ModelInfo)
  {
    GenerateContent in m.supportedGenerationMethods && ContainsSubstring(m.name, Gemini)
  }

  /** The names of the eligible models, in listing order. */
  function EligibleNames(ms: seq<ModelInfo>): seq<string>
  {
    if ms == [] then []
    else
      var m := ms[|ms| - 1];
      EligibleNames(ms[..|ms| - 1]) + (if Eligible(m) then [m.name] else [])
  }

  // ---- Python's ordering of str: code point by code point, a prefix first ----

  predicate StrLe(a: string, b: string)
  {
    if a == [] then true
    else if b == [] then false
    else if a[0] != b[0] then a[0] < b[0]
    else StrLe(a[1..], b[1..])
  }

  lemma {:induction false} StrLeTotal(a: string, b: string)
    ensures StrLe(a, b) || StrLe(b, a)
  {
    if a != [] && b != [] && a[0] == b[0] {
      StrLeTotal(a[1..], b[1..]);
    }
  }

  lemma {:induction false} StrLeReflexive(a: string)
    ensures StrLe(a, a)
  {
    if a != [] {
      StrLeReflexive(a[1..]);
    }
  }

  lemma {:induction false} StrLeAntisymmetric(a: string, b: string)
    requires StrLe(a, b) && StrLe(b, a)
    ensures a == b
  {
    if a != [] && b != [] {
      StrLeAntisymmetric(a[1..], b[1..]);
      assert a == [a[0]] + a[1..];
      assert b == [b[0]] + b[1..];
    }
  }

  lemma {:induction false} StrLeTransitive(a: string, b: string, c: string)
    requires StrLe(a, b) && StrLe(b, c)
    ensures StrLe(a, c)
  {
    if a != [] && b != [] && c != [] && a[0] == b[0] && b[0] == c[0] {
      StrLeTransitive(a[1..], b[1..], c[1..]);
    }
  }

  /** Sorted as `sort(reverse=True)` leaves a list of strings. */
  predicate Descending(s: seq<string>)
  {
    forall i, j | 0 <= i < j < |s| :: StrLe(s[j], s[i])
  }

  /** Places `x` in front of the first element not above it. */
  function Insert(x: string, s: seq<string>): seq<string>
  {
    if s == [] then [x]
    else if StrLe(s[0], x) then [x] + s
    else [s[0]] + Insert(x, s[1..])
  }

  /** Every element of a descending list lies below its head. */
  lemma HeadIsGreatest(s: seq<string>, y: string)
    requires Descending(s) && s != []
    requires y in multiset(s)
    ensures StrLe(y, s[0])
  {
    var j :| 0 <= j < |s| && s[j] == y;
    if j == 0 { StrLeReflexive(y); }
  }

  lemma {:induction false} InsertCorrect(x: string, s: seq<string>)
    requires Descending(s)
    ensures Descending(Insert(x, s))
    ensures multiset(Insert(x, s)) == multiset(s) + multiset{x}
  {
    if s == [] {
    } else if StrLe(s[0], x) {
      forall j | 0 <= j < |s| ensures StrLe(s[j], x) {
        if j > 0 { StrLeTransitive(s[j], s[0], x); }
      }
    } else {
      var rest := Insert(x, s[1..]);
      InsertCorrect(x, s[1..]);
      assert s == [s[0]] + s[1..];
      StrLeTotal(s[0], x);
      forall j | 0 <= j < |rest| ensures StrLe(rest[j], s[0]) {
        assert rest[j] in multiset(rest);
        if rest[j] != x {
          assert rest[j] in multiset(s);
          HeadIsGreatest(s, rest[j]);
        }
      }
    }
  }

  /** The in-place `sort(reverse=True)`: the same names, in descending order. */
  function SortDescending(s: seq<string>): (r: seq<string>)
    ensures Descending(r)
    ensures multiset(r) == multiset(s)
  {
    if s == [] then []
    else
      var rest := SortDescending(s[1..]);
      InsertCorrect(s[0], rest);
      assert s == [s[0]] + s[1..];
      Insert(s[0], rest)
  }

  lemma HeadsAgree(a: seq<string>, b: seq<string>)
    requires Descending(a) && Descending(b) && a != [] && b != []
    requires multiset(a) == multiset(b)
    ensures a[0] == b[0]
  {
    assert a[0] in multiset(b);
    assert b[0] in multiset(a);
    HeadIsGreatest(b, a[0]);
    HeadIsGreatest(a, b[0]);
    StrLeAntisymmetric(a[0], b[0]);
  }

  lemma TailsAgree(a: seq<string>, b: seq<string>)
    requires a != [] && b != [] && a[0] == b[0]
    requires multiset(a) == multiset(b)
    ensures multiset(a[1..]) == multiset(b[1..])
  {
    assert a == [a[0]] + a[1..];
    assert b == [b[0]] + b[1..];
    calc {
      multiset(a[1..]);
      multiset(a) - multiset{a[0]};
      multiset(b) - multiset{b[0]};
      multiset(b[1..]);
    }
  }

  /** A descending order of a multiset of names is unique, so the sort's
      result is determined by the names alone. */
  lemma {:induction false} DescendingUnique(a: seq<string>, b: seq<string>)
    requires Descending(a) && Descending(b)
    requires multiset(a) == multiset(b)
    ensures a == b
  {
    if a == [] {
      assert |multiset(b)| == 0;
    } else {
      assert b != [] by { assert a[0] in multiset(b); }
      HeadsAgree(a, b);
      TailsAgree(a, b);
      DescendingUnique(a[1..], b[1..]);
      assert a == [a[0]] + a[1..];
      assert b == [b[0]] + b[1..];
    }
  }

  /** What the helper returns for a listing. */
  function AvailableModels(listing: Listing): seq<string>
  {
    if listing.fails then [DefaultModel]
    else SortDescending(EligibleNames(listing.models))
  }

  /** The helper as the source runs it: append each eligible name while the
      listing is consumed, sort the list, and return the fallback instead if
      the listing raised. */
  method GetAvailableGeminiModels(listing: Listing) returns (models: seq<string>)
    ensures models == AvailableModels(listing)
  {
    var modelsList: seq<string> := [];
    for i := 0 to |listing.models|
      invariant modelsList == EligibleNames(listing.models[..i])
    {
      var m := listing.models[i];
      assert listing.models[..i + 1][..i] == listing.models[..i];
      if GenerateContent in m.supportedGenerationMethods && ContainsSubstring(m.name, Gemini) {
        modelsList := modelsList + [m.name];
      }
    }
    assert listing.models[..|listing.models|] == listing.models;
    if listing.fails {
      return [DefaultModel];
    }
    models := SortDescending(modelsList);
  }

  lemma {:induction false} EligibleNamesMembers(ms: seq<ModelInfo>)
    ensures forall x :: x in EligibleNames(ms) <==> exists m | m in ms :: Eligible(m) && m.name == x
  {
    if ms != [] {
      var front, last := ms[..|ms| - 1], ms[|ms| - 1];
      assert ms == front + [last];
      EligibleNamesMembers(front);
    }
  }

  /** The helper's promise: after a listing that raised, exactly the fallback
      list; otherwise the names of the listed Gemini models that support
      content generation and no other names, each as often as it was listed,
      in descending order — the only descending arrangement of those names. */
  lemma AvailableModelsMeaning(listing: Listing)
    ensures listing.fails ==> AvailableModels(listing) == [DefaultModel]
    ensures !listing.fails ==>
      var r := AvailableModels(listing);
      && Descending(r)
      && multiset(r) == multiset(EligibleNames(listing.models))
      && (forall x :: x in r <==>
            exists m | m in listing.models :: m.name == x && GenerateContent in m.supportedGenerationMethods
                                            && ContainsSubstring(m.name, Gemini))
      && (forall s | Descending(s) && multiset(s) == multiset(EligibleNames(listing.models)) :: s == r)
  {
    if !listing.fails {
      var r := AvailableModels(listing);
      var names := EligibleNames(listing.models);
      EligibleNamesMembers(listing.models);
      forall x ensures x in r <==> x in names {
        assert x in r <==> x in multiset(r);
        assert x in names <==> x in multiset(names);
      }
      forall s | Descending(s) && multiset(s) == multiset(names) ensures s == r {
        DescendingUnique(s, r);
      }
    }
  }
}
