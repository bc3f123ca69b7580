/** The check an uploaded table must pass before it is shown. */
module Upload {

  const RequiredColumns: seq<string> := ["Topic", "Year", "Publications"]

  /** `all(col in columns for col in required)`. */
  function AllPresent(required: seq<string>, columns: seq<string>): (ok: bool)
    ensures ok <==> forall k :: 0 <= k < |required| ==> required[k] in columns
    decreases |required|
  {
    required == [] || (required[0] in columns && AllPresent(required[1..], columns))
  }

  /** The upload is accepted exactly when `Topic`, `Year` and `Publications`
      are all among its column names (compared exactly, case included). */
  function HasRequiredColumns(columns: seq<string>): (ok: bool)
    ensures ok <==> "Topic" in columns && "Year" in columns && "Publications" in columns
  {
    assert RequiredColumns[0] == "Topic" && RequiredColumns[1] == "Year" && RequiredColumns[2] == "Publications";
    AllPresent(RequiredColumns, columns)
  }

  /** The order of the columns does not matter. */
  lemma ColumnOrderIrrelevant(a: seq<string>, b: seq<string>)
    requires multiset(a) == multiset(b)
    ensures HasRequiredColumns(a) == HasRequiredColumns(b)
  {
    forall x | x in RequiredColumns ensures x in a <==> x in b {
      assert x in a <==> x in multiset(a);
      assert x in b <==> x in multiset(b);
    }
  }

  /** Extra columns, such as `Average Citations`, never make an accepted
      table rejected. */
  lemma ExtraColumnsAccepted(a: seq<string>, extra: seq<string>)
    requires HasRequiredColumns(a)
    ensures HasRequiredColumns(a + extra) && HasRequiredColumns(extra + a)
  {
  }

  /** Removing any required column gets the table rejected. */
  lemma MissingColumnRejected(columns: seq<string>, name: string)
    requires name in RequiredColumns
    requires name !in columns
    ensures !HasRequiredColumns(columns)
  {
  }
}
