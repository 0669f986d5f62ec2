/** The exporter's token list: the tokenizer's vocabulary turned round into an array. */
module Vocabulary {
  import opened Ordering

  /** A JSON value as the loader sees it: an integer (a boolean is one, 0 or 1), or anything else. */
  datatype Json = Int(value: int) | Other

  datatype VocabularyError = SizeMismatch | InvalidEntry | NotContiguous

  predicate ValidIndex(v: Json, n: nat) { v.Int? && 0 <= v.value < n }

  /** The token ids are exactly 0 to n - 1, each used once. */
  ghost predicate Bijective(vocabulary: map<string, Json>) {
    && (forall t | t in vocabulary :: vocabulary[t].Int? && 0 <= vocabulary[t].value < |vocabulary|)
    && (forall t, u | t in vocabulary && u in vocabulary && vocabulary[t] == vocabulary[u] :: t == u)
    && (forall i: nat | i < |vocabulary| :: Int(i) in vocabulary.Values)
  }

  ghost predicate Valid(vocabulary: map<string, Json>) {
    forall t | t in vocabulary :: vocabulary[t].Int? && 0 <= vocabulary[t].value < |vocabulary|
  }

  // ---------- pigeonhole ----------

  function Below(n: nat): (r: set<Json>)
    ensures |r| == n && forall v :: v in r <==> ValidIndex(v, n)
  {
    if n == 0 then {} else Below(n - 1) + {Int(n - 1)}
  }

  /** A map has no more values than keys, and as many only when it repeats none. */
  lemma {:induction false} ValuesOfMap(m: map<string, Json>)
    ensures |m.Values| <= |m|
    ensures |m.Values| == |m| ==> forall t, u | t in m && u in m && m[t] == m[u] :: t == u
    decreases |m|
  {
    if m != map[] {
      var t :| t in m;
      var rest := m - {t};
      assert m.Keys == rest.Keys + {t};
      assert |m.Keys| == |rest.Keys| + 1;
      assert m.Values == rest.Values + {m[t]} by {
        forall v | v in m.Values ensures v in rest.Values + {m[t]} {
          var u :| u in m && m[u] == v;
          assert u == t || (u in rest && rest[u] == v);
        }
      }
      ValuesOfMap(rest);
      if |m.Values| == |m| {
        assert m[t] !in rest.Values;
        forall u | u in rest ensures rest[u] == m[u] && m[u] != m[t] { assert rest[u] in rest.Values; }
        forall u, w | u in m && w in m && m[u] == m[w] ensures u == w {
          assert u == t || u in rest;
          assert w == t || w in rest;
        }
      }
    }
  }

  /** With every id in range, leaving no hole already means that no id is used twice. */
  lemma NoHoleMeansBijective(vocabulary: map<string, Json>)
    requires Valid(vocabulary)
    requires forall i: nat | i < |vocabulary| :: Int(i) in vocabulary.Values
    ensures Bijective(vocabulary)
  {
    var n := |vocabulary|;
    forall v | v in Below(n) ensures v in vocabulary.Values { assert v == Int(v.value); }
    forall v | v in vocabulary.Values ensures v in Below(n) {
      var t :| t in vocabulary && vocabulary[t] == v;
    }
    assert vocabulary.Values == Below(n);
    ValuesOfMap(vocabulary);
  }

  /** A repeated id therefore leaves a hole. */
  lemma RepeatedIdLeavesHole(vocabulary: map<string, Json>, t: string, u: string)
    requires Valid(vocabulary) && t in vocabulary && u in vocabulary && t != u && vocabulary[t] == vocabulary[u]
    ensures exists i: nat | i < |vocabulary| :: Int(i) !in vocabulary.Values
  {
    if forall i: nat | i < |vocabulary| :: Int(i) in vocabulary.Values {
      NoHoleMeansBijective(vocabulary);
    }
  }

  // ---------- the fill loop ----------

  /** What the array holds once the tokens in `done` are stored, whatever order they came in: a stored id
      holds one of its tokens, and the other places are empty. */
  ghost predicate Filled(tokens: seq<Option<string>>, vocabulary: map<string, Json>, done: set<string>)
    requires done <= vocabulary.Keys
  {
    && (forall t | t in done :: ValidIndex(vocabulary[t], |tokens|) && tokens[vocabulary[t].value].Some?)
    && (forall i | 0 <= i < |tokens| && tokens[i].Some? ::
          tokens[i].value in done && vocabulary[tokens[i].value] == Int(i))
  }

  /** `tokens[index] = token` for every entry; the first invalid entry stops the export. */
  method FillTokens(vocabulary: map<string, Json>, tokens: array<Option<string>>) returns (ok: bool)
    requires tokens.Length == |vocabulary| && forall i | 0 <= i < tokens.Length :: tokens[i] == None
    modifies tokens
    ensures ok <==> Valid(vocabulary)
    ensures ok ==> Filled(tokens[..], vocabulary, vocabulary.Keys)
  {
    var left := vocabulary.Keys;
    while left != {}
      invariant left <= vocabulary.Keys
      invariant Filled(tokens[..], vocabulary, vocabulary.Keys - left)
    {
      var token :| token in left;
      var index := vocabulary[token];
      if !ValidIndex(index, tokens.Length) { return false; }
      StoreKeepsFilled(tokens[..], vocabulary, vocabulary.Keys - left, token);
      tokens[index.value] := Some(token);
      assert vocabulary.Keys - (left - {token}) == (vocabulary.Keys - left) + {token};
      left := left - {token};
    }
    assert vocabulary.Keys - left == vocabulary.Keys;
    ok := true;
  }

  lemma StoreKeepsFilled(tokens: seq<Option<string>>, vocabulary: map<string, Json>, done: set<string>, token: string)
    requires done <= vocabulary.Keys && token in vocabulary && ValidIndex(vocabulary[token], |tokens|)
    requires Filled(tokens, vocabulary, done)
    ensures Filled(tokens[vocabulary[token].value := Some(token)], vocabulary, done + {token})
  {
  }

  /** Without a hole in the filled array every id is used. */
  lemma FilledHoles(tokens: seq<Option<string>>, vocabulary: map<string, Json>)
    requires |tokens| == |vocabulary| && Filled(tokens, vocabulary, vocabulary.Keys)
    ensures Bijective(vocabulary) <==> None !in tokens
  {
    forall i: nat | i < |tokens| && Int(i) in vocabulary.Values ensures tokens[i].Some? {
      var t :| t in vocabulary && vocabulary[t] == Int(i);
      assert t in vocabulary.Keys;
    }
    if None !in tokens {
      forall i: nat | i < |vocabulary| ensures Int(i) in vocabulary.Values {
        assert tokens[i] in tokens;
        assert vocabulary[tokens[i].value] == Int(i);
      }
      NoHoleMeansBijective(vocabulary);
    } else {
      var i :| 0 <= i < |tokens| && tokens[i] == None;
      assert Int(i) !in vocabulary.Values;
    }
  }

  // ---------- the lists handed to the writer ----------

  /** `[token for token in tokens if token is not None]` */
  function Present(tokens: seq<Option<string>>): seq<string> {
    if tokens == [] then []
    else
      var n := |tokens| - 1;
      Present(tokens[..n]) + if tokens[n].Some? then [tokens[n].value] else []
  }

  /** The filter keeps every place exactly when there is no hole. */
  lemma {:induction false} PresentKeepsPlaces(tokens: seq<Option<string>>)
    ensures |Present(tokens)| <= |tokens|
    ensures |Present(tokens)| == |tokens| <==> None !in tokens
    ensures None !in tokens ==> forall i | 0 <= i < |tokens| :: tokens[i] == Some(Present(tokens)[i])
  {
    if tokens != [] {
      var n := |tokens| - 1;
      PresentKeepsPlaces(tokens[..n]);
      assert tokens == tokens[..n] + [tokens[n]];
      assert None in tokens <==> None in tokens[..n] || tokens[n] == None;
    }
  }

  datatype TokenType = Control | Normal

  datatype Export = Export(tokens: seq<string>, types: seq<TokenType>)

  /** The vocabulary part of `export_model`. It succeeds exactly on the bijective vocabularies of the
      configured size, and then each token stands at its own id beside its own type. */
  method ExportVocabulary(vocabulary: map<string, Json>, vocabSize: int, specialIds: set<int>)
    returns (r: Outcome<Export, VocabularyError>)
    ensures r == Fail(SizeMismatch) <==> |vocabulary| != vocabSize
    ensures r == Fail(InvalidEntry) <==> (|vocabulary| == vocabSize && !Valid(vocabulary))
    ensures r == Fail(NotContiguous) <==>
            (|vocabulary| == vocabSize && Valid(vocabulary) && !Bijective(vocabulary))
    ensures r.Ok? <==> |vocabulary| == vocabSize && Bijective(vocabulary)
    ensures r.Ok? ==> |r.value.tokens| == |r.value.types| == |vocabulary| && Bijective(vocabulary)
    ensures r.Ok? ==> forall t | t in vocabulary :: r.value.tokens[vocabulary[t].value] == t
    ensures r.Ok? ==> forall t | t in vocabulary ::
                        r.value.types[vocabulary[t].value] == Control <==> vocabulary[t].value in specialIds
  {
    if |vocabulary| != vocabSize { return Fail(SizeMismatch); }
    var tokens := new Option<string>[|vocabulary|](_ => None);
    var ok := FillTokens(vocabulary, tokens);
    if !ok { return Fail(InvalidEntry); }
    FilledHoles(tokens[..], vocabulary);
    if None in tokens[..] { return Fail(NotContiguous); }
    PresentKeepsPlaces(tokens[..]);
    var types := TokenTypes(tokens.Length, specialIds);
    TokensStandAtTheirIds(tokens[..], vocabulary);
    r := Ok(Export(Present(tokens[..]), types));
  }

  method TokenTypes(n: nat, specialIds: set<int>) returns (types: seq<TokenType>)
    ensures |types| == n && forall i | 0 <= i < n :: types[i] == Control <==> i in specialIds
  {
    types := [];
    for i := 0 to n
      invariant |types| == i && forall j | 0 <= j < i :: types[j] == Control <==> j in specialIds
    {
      types := types + [if i in specialIds then Control else Normal];
    }
  }

  lemma TokensStandAtTheirIds(tokens: seq<Option<string>>, vocabulary: map<string, Json>)
    requires |tokens| == |vocabulary| && Filled(tokens, vocabulary, vocabulary.Keys) && None !in tokens
    ensures |Present(tokens)| == |vocabulary| && Bijective(vocabulary)
    ensures forall t | t in vocabulary :: Present(tokens)[vocabulary[t].value] == t
  {
    PresentKeepsPlaces(tokens);
    FilledHoles(tokens, vocabulary);
    forall t | t in vocabulary ensures Present(tokens)[vocabulary[t].value] == t {
      assert t in vocabulary.Keys;
      var i := vocabulary[t].value;
      assert vocabulary[tokens[i].value] == Int(i) == vocabulary[t];
    }
  }
}
