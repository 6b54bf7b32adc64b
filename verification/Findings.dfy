/** What the scanner reports and the alert channels deliver. */
module Findings {
  import opened Option
  import opened Utf8

  datatype Severity = Critical | High | Medium | Low | Info

  datatype Finding = Finding(
    database: string, ruleId: string, description: string, category: string, severity: Severity,
    schemaName: string, tableName: string, columnName: string, maskedSample: string, valueHash: nat,
    primaryKeys: seq<(string, bytes)>, lsn: nat, channels: Option<seq<string>>)

  /** The fields that identify an alert. The program hashes them to 64 bits; here two
      findings share a key only if the fields agree. */
  datatype Key = Key(database: string, schemaName: string, tableName: string, columnName: string,
                     ruleId: string, valueHash: nat)

  function KeyOf(f: Finding): Key
  {
    Key(f.database, f.schemaName, f.tableName, f.columnName, f.ruleId, f.valueHash)
  }

  /** Two findings share a key exactly if they agree on database, schema, table, column, rule and
      value. */
  lemma SameKey(f: Finding, g: Finding)
    ensures KeyOf(f) == KeyOf(g) <==>
      && f.database == g.database && f.schemaName == g.schemaName && f.tableName == g.tableName
      && f.columnName == g.columnName && f.ruleId == g.ruleId && f.valueHash == g.valueHash
  {
  }
}
