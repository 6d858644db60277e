/**
 * The keep/skip loop of `main` (main.py): every extracted record gets the
 * article URL as `source_url` unless it already has one, records the model
 * marked as not relevant to Canada are skipped, records missing a required
 * field are skipped, and the rest are kept, in order.
 *
 * Two statements of the loop body raise on some inputs, ending `main` with
 * an exception: `.lower()` on a truthy `canadian_relevance` that is not a
 * string, and `explanation[:200]` on a `relation_explanation` that cannot be
 * sliced. Both are modelled as an aborted run.
 */
module Selection {
  import opened PyText
  import opened Json
  import opened ApiRecords

  /** The article URL `main` fetches (`URL`). */
  const ArticleUrl := "https://pbicanada.org/2025/06/05/general-dynamics-promotes-light-armoured-vehicles-at-cansec-as-controversial-export-to-saudi-arabia-continues/"

  /** Why the loop stopped with an exception. */
  datatype Fault =
    | RelevanceNotText        // AttributeError: no .lower() on the value
    | ExplanationNotSliceable // TypeError (KeyError for a dict) on explanation[:200]

  /** What the loop body does with one record. */
  datatype Decision = Keep | SkipIrrelevant | SkipInvalid | Fail(fault: Fault)

  /** How the loop ends: having run through every record, or raising at
      index `at`; `kept` are the records kept (and printed) until then. */
  datatype Outcome =
    | Completed(kept: seq<Record>)
    | Aborted(kept: seq<Record>, at: nat, fault: Fault)

  /** `tx.setdefault(key, default)`, seen through the dictionary it leaves. */
  function SetDefault(tx: Record, key: string, default: JsonValue): (r: Record)
    ensures key in r
    ensures key in tx ==> r == tx
    ensures key !in tx ==> r[key] == default && r.Keys == tx.Keys + {key}
    ensures forall k :: k in tx ==> k in r && r[k] == tx[k]
  {
    if key in tx then tx else tx[key := default]
  }

  function AttachSource(tx: Record, url: string): Record {
    SetDefault(tx, "source_url", JString(url))
  }

  /** `(tx.get("canadian_relevance") or "none").lower()` */
  function Relevance(tx: Record): (r: Option<string>)
    ensures r.None? <==>
      "canadian_relevance" in tx && Truthy(tx["canadian_relevance"]) && !tx["canadian_relevance"].JString?
    ensures r.Some? && "canadian_relevance" in tx && tx["canadian_relevance"].JString? ==>
      r.value == Lower(tx["canadian_relevance"].str) || tx["canadian_relevance"].str == ""
    ensures "canadian_relevance" !in tx || !Truthy(tx["canadian_relevance"]) ==> r == Some("none")
  {
    var given := if "canadian_relevance" in tx && Truthy(tx["canadian_relevance"])
                 then tx["canadian_relevance"] else JString("none");
    assert Lower("none") == "none" by {
      var l := Lower("none");
      assert l[0] == 'n' && l[1] == 'o' && l[2] == 'n' && l[3] == 'e';
    }
    match given
    case JString(s) => Some(Lower(s))
    case _ => None
  }

  /** `explanation[:200]` with `explanation = tx.get("relation_explanation", "")`
      succeeds: strings and lists can be sliced. */
  predicate ExplanationSliceable(tx: Record) {
    "relation_explanation" !in tx || tx["relation_explanation"].JString? || tx["relation_explanation"].JArray?
  }

  /** `s` equals "none" when letter case is ignored. */
  predicate SaysNone(s: string) {
    |s| == 4 && forall i :: 0 <= i < 4 ==> LowerChar(s[i]) == "none"[i]
  }

  /** The model declared a Canadian connection: a non-empty string other than
      "none" in any letter case. */
  predicate DeclaredRelevant(tx: Record) {
    && "canadian_relevance" in tx && tx["canadian_relevance"].JString?
    && tx["canadian_relevance"].str != "" && !SaysNone(tx["canadian_relevance"].str)
  }

  /** The loop body, lines 231-242, on a record that already has its
      `source_url`. */
  function Decide(tx: Record): Decision {
    match Relevance(tx)
    case None => Fail(RelevanceNotText)
    case Some(relevance) =>
      if relevance == "none" then
        if ExplanationSliceable(tx) then SkipIrrelevant else Fail(ExplanationNotSliceable)
      else if !IsValidTransaction(tx) then SkipInvalid
      else Keep
  }

  /** What the loop body decides, in terms of the record. */
  lemma DecideMeaning(tx: Record)
    // kept exactly when declared relevant and valid
    ensures Decide(tx) == Keep <==> DeclaredRelevant(tx) && IsValidTransaction(tx)
    ensures Decide(tx) == SkipInvalid <==> DeclaredRelevant(tx) && !IsValidTransaction(tx)
    // absent, falsy or "none" in any case: never kept
    ensures Decide(tx) == SkipIrrelevant ==> !DeclaredRelevant(tx) && ExplanationSliceable(tx)
    ensures !DeclaredRelevant(tx) ==> Decide(tx) != Keep && Decide(tx) != SkipInvalid
    // the two exceptions
    ensures Decide(tx) == Fail(RelevanceNotText) <==>
      "canadian_relevance" in tx && Truthy(tx["canadian_relevance"]) && !tx["canadian_relevance"].JString?
    ensures Decide(tx) == Fail(ExplanationNotSliceable) ==> !ExplanationSliceable(tx)
  {
    if "canadian_relevance" in tx && tx["canadian_relevance"].JString? {
      var s := tx["canadian_relevance"].str;
      assert SaysNone(s) <==> Lower(s) == "none";
    }
  }

  predicate Passes(tx: Record) {
    Decide(tx) == Keep
  }

  /** `kept` goes before the records of `o`, whose indices are shifted by `n`. */
  function After(kept: seq<Record>, n: nat, o: Outcome): Outcome {
    match o
    case Completed(ks) => Completed(kept + ks)
    case Aborted(ks, at, f) => Aborted(kept + ks, n + at, f)
  }

  /** What the loop over `items` produces. */
  function Selection(items: seq<Record>, url: string): Outcome
    decreases |items|
  {
    if items == [] then Completed([])
    else
      var tx := AttachSource(items[0], url);
      match Decide(tx)
      case Fail(f) => Aborted([], 0, f)
      case Keep => After([tx], 1, Selection(items[1..], url))
      case _ => After([], 1, Selection(items[1..], url))
  }

  /** One unfolding of `Selection` at index `i`. */
  lemma SelectionStep(items: seq<Record>, url: string, i: nat)
    requires i < |items|
    ensures var tx := AttachSource(items[i], url);
      Selection(items[i..], url) ==
        match Decide(tx)
        case Fail(f) => Aborted([], 0, f)
        case Keep => After([tx], 1, Selection(items[i + 1..], url))
        case _ => After([], 1, Selection(items[i + 1..], url))
  {
    assert items[i..][0] == items[i] && items[i..][1..] == items[i + 1..];
  }

  lemma AfterAfter(kept: seq<Record>, n: nat, more: seq<Record>, o: Outcome)
    ensures After(kept, n, After(more, 1, o)) == After(kept + more, n + 1, o)
  {
    assert kept + more + o.kept == kept + (more + o.kept);
  }

  /** The loop at main.py:226-247, with kept records collected instead of
      printed. */
  method SelectRecords(items: seq<Record>, url: string) returns (outcome: Outcome)
    ensures outcome == Selection(items, url)
  {
    var kept: seq<Record> := [];
    for i := 0 to |items|
      invariant Selection(items, url) == After(kept, i, Selection(items[i..], url))
    {
      var tx := items[i];
      if "source_url" !in tx {
        tx := tx["source_url" := JString(url)];
      }
      SelectionStep(items, url, i);
      assert tx == AttachSource(items[i], url);
      var relevance := Relevance(tx);
      if relevance.None? {
        assert Decide(tx) == Fail(RelevanceNotText);
        return Aborted(kept, i, RelevanceNotText);
      }
      if relevance.value == "none" {
        if !ExplanationSliceable(tx) {
          assert Decide(tx) == Fail(ExplanationNotSliceable);
          return Aborted(kept, i, ExplanationNotSliceable);
        }
        assert Decide(tx) == SkipIrrelevant;
        AfterAfter(kept, i, [], Selection(items[i + 1..], url));
        assert kept + [] == kept;
        continue;
      }
      if !IsValidTransaction(tx) {
        assert Decide(tx) == SkipInvalid;
        AfterAfter(kept, i, [], Selection(items[i + 1..], url));
        assert kept + [] == kept;
        continue;
      }
      assert Decide(tx) == Keep;
      AfterAfter(kept, i, [tx], Selection(items[i + 1..], url));
      kept := kept + [tx];
    }
    assert items[|items|..] == [];
    outcome := Completed(kept);
  }

  /** The records with their `source_url` attached. */
  function AttachAll(items: seq<Record>, url: string): (r: seq<Record>)
    ensures |r| == |items|
    ensures forall i :: 0 <= i < |items| ==> r[i] == AttachSource(items[i], url)
  {
    if items == [] then [] else [AttachSource(items[0], url)] + AttachAll(items[1..], url)
  }

  /** The elements of `s` for which `p` holds, in their order. */
  function Filter<T>(p: T -> bool, s: seq<T>): (r: seq<T>)
    ensures |r| <= |s|
  {
    if s == [] then []
    else (if p(s[0]) then [s[0]] else []) + Filter(p, s[1..])
  }

  /** `Filter` keeps exactly the elements satisfying `p`. */
  lemma {:induction false} FilterMembers<T>(p: T -> bool, s: seq<T>, x: T)
    ensures x in Filter(p, s) <==> x in s && p(x)
    decreases |s|
  {
    if s != [] {
      FilterMembers(p, s[1..], x);
      assert s == [s[0]] + s[1..];
    }
  }

  lemma {:induction false} FilterConcat<T>(p: T -> bool, a: seq<T>, b: seq<T>)
    ensures Filter(p, a + b) == Filter(p, a) + Filter(p, b)
    decreases |a|
  {
    if a == [] {
      assert a + b == b;
    } else {
      var head := if p(a[0]) then [a[0]] else [];
      assert (a + b)[0] == a[0] && (a + b)[1..] == a[1..] + b;
      calc {
        Filter(p, a + b);
      ==
        head + Filter(p, a[1..] + b);
      == { FilterConcat(p, a[1..], b); }
        head + (Filter(p, a[1..]) + Filter(p, b));
      ==
        (head + Filter(p, a[1..])) + Filter(p, b);
      }
    }
  }

  /** A first record that raises nothing is kept or skipped on its own. */
  lemma SelectionHead(items: seq<Record>, url: string)
    requires items != [] && !Decide(AttachSource(items[0], url)).Fail?
    ensures Selection(items, url) ==
      After(Filter(Passes, [AttachSource(items[0], url)]), 1, Selection(items[1..], url))
  {
    var tx := AttachSource(items[0], url);
    assert [tx][1..] == [];
    assert Filter(Passes, [tx]) == if Passes(tx) then [tx] else [];
  }

  /** Without an exception, the loop keeps exactly the attached records that
      pass both gates, in their original order. */
  lemma {:induction false} SelectionWithoutFault(items: seq<Record>, url: string)
    requires forall i :: 0 <= i < |items| ==> !Decide(AttachSource(items[i], url)).Fail?
    ensures Selection(items, url) == Completed(Filter(Passes, AttachAll(items, url)))
    decreases |items|
  {
    if items != [] {
      assert forall i :: 0 <= i < |items| - 1 ==> items[1..][i] == items[i + 1];
      SelectionWithoutFault(items[1..], url);
      SelectionHead(items, url);
      FilterConcat(Passes, [AttachSource(items[0], url)], AttachAll(items[1..], url));
    }
  }

  /** When the record at `k` is the first whose body raises, the run aborts
      there, having kept exactly the passing records before it. */
  lemma {:induction false} SelectionWithFault(items: seq<Record>, url: string, k: nat)
    requires k < |items| && Decide(AttachSource(items[k], url)).Fail?
    requires forall i :: 0 <= i < k ==> !Decide(AttachSource(items[i], url)).Fail?
    ensures Selection(items, url) ==
      Aborted(Filter(Passes, AttachAll(items[..k], url)), k, Decide(AttachSource(items[k], url)).fault)
    decreases k
  {
    var fault := Decide(AttachSource(items[k], url)).fault;
    if k == 0 {
      assert items[..0] == [];
      assert Selection(items, url) == Aborted([], 0, fault);
    } else {
      var tail := items[1..];
      assert tail[k - 1] == items[k];
      assert forall i :: 0 <= i < k - 1 ==> tail[i] == items[i + 1];
      assert items[..k][1..] == tail[..k - 1];
      var first := AttachSource(items[0], url);
      var rest := AttachAll(tail[..k - 1], url);
      assert AttachAll(items[..k], url) == [first] + rest;
      calc {
        Selection(items, url);
      == { SelectionHead(items, url); }
        After(Filter(Passes, [first]), 1, Selection(tail, url));
      == { SelectionWithFault(tail, url, k - 1); }
        After(Filter(Passes, [first]), 1, Aborted(Filter(Passes, rest), k - 1, fault));
      ==
        Aborted(Filter(Passes, [first]) + Filter(Passes, rest), k, fault);
      == { FilterConcat(Passes, [first], rest); }
        Aborted(Filter(Passes, AttachAll(items[..k], url)), k, fault);
      }
    }
  }

  /** Every kept record carries a `source_url`; the one it came with if it had
      one, and the article URL otherwise. */
  lemma {:induction false} KeptRecordsHaveSource(items: seq<Record>, url: string, r: Record)
    requires r in Selection(items, url).kept
    ensures "source_url" in r && Passes(r)
    ensures exists i :: 0 <= i < |items| && r == AttachSource(items[i], url)
    decreases |items|
  {
    var tx := AttachSource(items[0], url);
    if r == tx && Decide(tx) == Keep {
    } else {
      KeptRecordsHaveSource(items[1..], url, r);
      var i :| 0 <= i < |items[1..]| && r == AttachSource(items[1..][i], url);
      assert items[1..][i] == items[i + 1];
    }
  }

  /** `main` always passes the article URL. When no extracted record brings
      a `source_url` of its own, every kept record cites the article and is
      an extracted record with just that key added. */
  lemma KeptRecordsCiteArticle(items: seq<Record>, r: Record)
    requires forall i :: 0 <= i < |items| ==> "source_url" !in items[i]
    requires r in Selection(items, ArticleUrl).kept
    ensures "source_url" in r && r["source_url"] == JString(ArticleUrl)
    ensures exists i :: 0 <= i < |items| && r == items[i]["source_url" := JString(ArticleUrl)]
  {
    KeptRecordsHaveSource(items, ArticleUrl, r);
    var i :| 0 <= i < |items| && r == AttachSource(items[i], ArticleUrl);
    assert r == items[i]["source_url" := JString(ArticleUrl)];
  }
}
