/** A row of `databases.csv`: which credentials dump which database of which
    instance. The backup reads these rows and the seeder writes them. */
module Credentials {

  datatype CredentialRow = CredentialRow(instance: string, database: string, username: string, password: string)

  /** The rows whose `instance` column equals `instance`, in table order
      (pandas' `df.loc[df["instance"] == instance]`). */
  function EntriesFor(rows: seq<CredentialRow>, instance: string): (r: seq<CredentialRow>)
    ensures |r| <= |rows|
    ensures forall row :: row in r <==> row in rows && row.instance == instance
    decreases |rows|
  {
    if |rows| == 0 then []
    else
      var rest := EntriesFor(rows[1..], instance);
      assert forall row :: row in rows <==> row == rows[0] || row in rows[1..];
      if rows[0].instance == instance then [rows[0]] + rest else rest
  }

  /** Filtering keeps table order: the rows of a concatenation are the rows of
      each part, one after the other. */
  lemma {:induction false} EntriesForAppend(a: seq<CredentialRow>, b: seq<CredentialRow>, instance: string)
    ensures EntriesFor(a + b, instance) == EntriesFor(a, instance) + EntriesFor(b, instance)
    decreases |a|
  {
    if |a| == 0 {
      assert a + b == b;
    } else {
      assert (a + b)[0] == a[0] && (a + b)[1..] == a[1..] + b;
      EntriesForAppend(a[1..], b, instance);
    }
  }
}
