/**
 * The two record checks of main.py that sit in front of the transaction API:
 * `is_valid_transaction` (required fields) and `clean_for_api` (projection
 * onto `allowed_fields` plus per-field sanitation).
 */
module ApiRecords {
  import opened PyText
  import opened Json
  import opened PyFloat

  /** The sentinel the extraction prompt asks the model to use for a missing
      value; compared case-sensitively by `is_valid_transaction`. */
  const NotFound := "Not Found"

  /** The fields the API requires, in the order they are checked. */
  const RequiredFields: seq<string> := ["transaction_type", "company_division", "recipient"]

  /** The only keys the API accepts (`allowed_fields`). */
  const AllowedFields: set<string> := {
    "transaction_type", "company_division", "recipient", "amount",
    "description", "address_1", "address_2", "city", "province", "region",
    "postal_code", "source_date", "source_description", "grant_type",
    "commodity_class", "contract_number", "comments", "is_primary"
  }

  /** One iteration of the check loop passes: the key is there, its value is
      truthy, and it is not the sentinel string. */
  predicate FieldFilled(tx: Record, field: string) {
    field in tx && Truthy(tx[field]) && tx[field] != JString(NotFound)
  }

  /** The `for` loop with early `return False` over `fields`. */
  function AllFilled(tx: Record, fields: seq<string>): (r: bool)
    ensures r <==> forall i :: 0 <= i < |fields| ==> FieldFilled(tx, fields[i])
  {
    if fields == [] then true
    else if !FieldFilled(tx, fields[0]) then false
    else AllFilled(tx, fields[1..])
  }

  /** `is_valid_transaction(tx)` */
  function IsValidTransaction(tx: Record): (r: bool)
    ensures r <==>
      && FieldFilled(tx, "transaction_type")
      && FieldFilled(tx, "company_division")
      && FieldFilled(tx, "recipient")
  {
    assert RequiredFields[0] == "transaction_type";
    assert RequiredFields[1] == "company_division";
    assert RequiredFields[2] == "recipient";
    AllFilled(tx, RequiredFields)
  }

  /** Only the three required fields matter to the check. */
  lemma ValidityIgnoresOtherKeys(tx: Record, tx': Record)
    requires forall f :: f in RequiredFields ==> (f in tx <==> f in tx') && (f in tx ==> tx[f] == tx'[f])
    ensures IsValidTransaction(tx) == IsValidTransaction(tx')
  {
    assert RequiredFields[0] in RequiredFields && RequiredFields[1] in RequiredFields && RequiredFields[2] in RequiredFields;
  }

  /** A record without a usable `recipient` is invalid whatever else it holds. */
  lemma MissingRecipientIsInvalid(tx: Record)
    requires "recipient" !in tx || tx["recipient"] == JString(NotFound)
    ensures !IsValidTransaction(tx)
  {
  }

  /** `source_date` survives when it is a string other than "not found" in
      any letter case. */
  predicate DateUsable(v: JsonValue) {
    v.JString? && Lower(v.str) != "not found"
  }

  /** The text `str(v)` produces, for values whose printed form matters;
      `None` for numbers (whose printed form always parses) and for lists
      and dictionaries (whose printed form begins with a bracket). */
  function PrintedForm(v: JsonValue): Option<string> {
    match v
    case JString(s) => Some(s)
    case JBool(b) => Some(if b then "True" else "False")
    case JNull => Some("None")
    case _ => None
  }

  /** `float(str(v).replace(",", "").replace("$", ""))` raises no
      `ValueError`. */
  predicate AmountParses(v: JsonValue) {
    match PrintedForm(v)
    case Some(s) => ParsesAsFloat(RemoveAll(RemoveAll(s, ","), "$"))
    case None => v.JNumber?
  }

  /** Fields the cleaner rewrites or may drop; all other allowed fields are
      copied unchanged. */
  const SanitizedFields: set<string> := {"source_date", "amount", "source_description"}

  /** `k` is taken over from `tx` into the cleaned record (before the
      provenance overwrite). */
  predicate Survives(tx: Record, k: string) {
    && k in tx && k in AllowedFields
    && (k == "source_date" ==> DateUsable(tx[k]))
    && (k == "amount" ==> AmountParses(tx[k]))
  }

  /** The provenance and relevance annotations are not API fields, and the
      sanitized fields are. */
  lemma AnnotationsNotAllowed()
    ensures "source_url" !in AllowedFields
    ensures "canadian_relevance" !in AllowedFields
    ensures "relation_explanation" !in AllowedFields
    ensures SanitizedFields <= AllowedFields
  {
  }

  /** The fields of `tx` that survive the whitelist and the sanitation. */
  function Kept(tx: Record): Record {
    map k | k in tx.Keys && Survives(tx, k) :: tx[k]
  }

  /** What `clean_for_api(tx)` returns. */
  function Clean(tx: Record): (r: Record)
    // whitelist closure: nothing outside `allowed_fields`
    ensures r.Keys <= AllowedFields
    ensures "source_url" !in r && "canadian_relevance" !in r && "relation_explanation" !in r
    // the other allowed fields are copied as they are
    ensures forall k :: k in AllowedFields && k !in SanitizedFields ==>
      (k in r <==> k in tx) && (k in r ==> r[k] == tx[k])
    // a bad date or amount is removed, never replaced
    ensures "source_date" in r <==> "source_date" in tx && DateUsable(tx["source_date"])
    ensures "source_date" in r ==> r["source_date"] == tx["source_date"]
    ensures "amount" in r <==> "amount" in tx && AmountParses(tx["amount"])
    ensures "amount" in r ==> r["amount"] == tx["amount"]
    // provenance takes precedence over the model's description
    ensures "source_url" in tx ==> "source_description" in r && r["source_description"] == tx["source_url"]
    ensures "source_url" !in tx ==>
      ("source_description" in r <==> "source_description" in tx) &&
      ("source_description" in r ==> r["source_description"] == tx["source_description"])
  {
    var kept := Kept(tx);
    AnnotationsNotAllowed();
    if "source_url" in tx then kept["source_description" := tx["source_url"]] else kept
  }

  /** `clean_for_api(tx)`, step by step as main.py runs it. */
  method CleanForApi(tx: Record) returns (cleaned: Record)
    ensures cleaned == Clean(tx)
  {
    cleaned := map k | k in tx.Keys && k in AllowedFields :: tx[k];
    assert cleaned.Keys == tx.Keys * AllowedFields;
    if "source_date" in cleaned {
      var d := cleaned["source_date"];
      if !d.JString? || Lower(d.str) == "not found" {
        cleaned := cleaned - {"source_date"};
      }
    }
    assert "source_date" in cleaned <==> "source_date" in tx && DateUsable(tx["source_date"]);
    if "amount" in cleaned {
      if !AmountParses(cleaned["amount"]) {
        cleaned := cleaned - {"amount"};
      }
    }
    assert "amount" in cleaned <==> "amount" in tx && AmountParses(tx["amount"]);
    assert forall k :: k in cleaned ==> cleaned[k] == tx[k];
    assert cleaned.Keys == Kept(tx).Keys;
    assert cleaned == Kept(tx);
    if "source_url" in tx {
      cleaned := cleaned["source_description" := tx["source_url"]];
    }
    CleanIsKeptPlusProvenance(tx);
  }

  lemma CleanIsKeptPlusProvenance(tx: Record)
    ensures Clean(tx) == if "source_url" in tx then Kept(tx)["source_description" := tx["source_url"]] else Kept(tx)
  {
  }

  /** Cleaning an already cleaned record changes nothing. */
  lemma CleanIdempotent(tx: Record)
    ensures Clean(Clean(tx)) == Clean(tx)
  {
    var c := Clean(tx);
    assert forall k :: k in c ==> Survives(c, k);
  }

  /** The extraction prompt's own amount example is dropped: once `,` and
      `$` are gone, the currency code still keeps it from parsing. */
  lemma AmountWithCurrencyDropped(s: string)
    requires s == "15,000,000 CAD"
    ensures !AmountParses(JString(s))
  {
    var t := SeparatorsRemoved(s);
    RemoveAbsentChar(t, '$');
    CurrencySuffixIsNotANumber(t);
    TextAmount(s);
  }

  /** Deleting the thousands separators of the example. */
  lemma SeparatorsRemoved(s: string) returns (t: string)
    requires s == "15,000,000 CAD"
    ensures t == "15000000 CAD" && RemoveAll(s, ",") == t
  {
    var a, b, c := ExampleGroups(s);
    RemoveTwoSeparators(a, b, c, ',');
    t := a + b + c;
  }

  /** The digit groups of the example, between its two separators. */
  lemma ExampleGroups(s: string) returns (a: string, b: string, c: string)
    requires s == "15,000,000 CAD"
    ensures s == a + [','] + b + [','] + c
    ensures ',' !in a && ',' !in b && ',' !in c
    ensures a + b + c == "15000000 CAD"
  {
    a, b, c := "15", "000", "000 CAD";
    assert s == a + [','] + b + [','] + c;
    assert ',' !in a && ',' !in b && ',' !in c;
    Concatenation(a, b, c);
  }

  lemma Concatenation(a: string, b: string, c: string)
    requires a == "15" && b == "000" && c == "000 CAD"
    ensures a + b + c == "15000000 CAD"
  {
  }

  /** A JSON number is always kept as an amount. */
  lemma NumericAmountKept(n: real)
    ensures AmountParses(JNumber(n))
  {
  }

  /** A plain run of digits is kept as an amount. */
  lemma DigitsAmountKept(s: string)
    requires |s| > 0 && forall i :: 0 <= i < |s| ==> IsDigit(s[i])
    ensures AmountParses(JString(s))
  {
    assert RemoveAll(s, ",") == s by {
      assert ',' !in s;
      RemoveAbsentChar(s, ',');
    }
    assert RemoveAll(s, "$") == s by {
      assert '$' !in s;
      RemoveAbsentChar(s, '$');
    }
    assert ParsesAsFloat(s) by {
      DigitsParse(s);
    }
    assert ParsesAsFloat(RemoveAll(RemoveAll(s, ","), "$"));
    TextAmount(s);
  }

  /** A string amount is judged by its cleaned text. */
  lemma TextAmount(s: string)
    ensures AmountParses(JString(s)) <==> ParsesAsFloat(RemoveAll(RemoveAll(s, ","), "$"))
  {
    assert PrintedForm(JString(s)) == Some(s);
  }

  /** The sentinel is not an amount. */
  lemma NotFoundAmountDropped()
    ensures !AmountParses(JString(NotFound))
  {
    var s := NotFound;
    assert RemoveAll(RemoveAll(s, ","), "$") == s by {
      RemoveAbsentChar(s, ',');
      RemoveAbsentChar(s, '$');
    }
    NotFoundIsNotANumber(s);
    TextAmount(s);
  }
}
