/** Unquoted identifiers: case folding, and the words the server does not take as a table's name. */
module Identifiers {
  import opened Counted

  function Lower(c: char): char {
    if 'A' <= c <= 'Z' then (c as int + 32) as char else c
  }

  /** The ASCII capitals become the small letters, in alphabetical order, and all else stays. */
  lemma LowerIsAlphabet(c: char)
    ensures var capitals, small := "ABCDEFGHIJKLMNOPQRSTUVWXYZ", "abcdefghijklmnopqrstuvwxyz";
            && (forall i | 0 <= i < 26 && capitals[i] == c :: Lower(c) == small[i])
            && (c !in capitals ==> Lower(c) == c)
  {
    var capitals := "ABCDEFGHIJKLMNOPQRSTUVWXYZ";
    if 'A' <= c <= 'Z' {
      assert capitals[c as int - 'A' as int] == c;
    }
  }

  /** An unquoted identifier is folded to lower case. */
  function Folded(name: string): string {
    Map(Lower, name)
  }

  /**
    The key words that Appendix C of the PostgreSQL 17 documentation lists as reserved, those that
    can still be function or type names included.
   */
  function KeyWords(line: nat): set<string> {
    match line
    case 0 => {"all", "analyse", "analyze", "and", "any", "array", "as", "asc", "asymmetric"}
    case 1 => {"authorization", "binary", "both", "case", "cast", "check", "collate", "collation"}
    case 2 => {"column", "concurrently", "constraint", "create", "cross", "current_catalog"}
    case 3 => {"current_date", "current_role", "current_schema", "current_time", "current_timestamp"}
    case 4 => {"current_user", "default", "deferrable", "desc", "distinct", "do", "else", "end"}
    case 5 => {"except", "false", "fetch", "for", "foreign", "freeze", "from", "full", "grant", "group"}
    case 6 => {"having", "ilike", "in", "initially", "inner", "intersect", "into", "is", "isnull"}
    case 7 => {"join", "lateral", "leading", "left", "like", "limit", "localtime", "localtimestamp"}
    case 8 => {"natural", "not", "notnull", "null", "offset", "on", "only", "or", "order", "outer"}
    case 9 => {"overlaps", "placing", "primary", "references", "returning", "right", "select"}
    case 10 => {"session_user", "similar", "some", "symmetric", "system_user", "table", "tablesample"}
    case 11 => {"then", "to", "trailing", "true", "union", "unique", "user", "using", "variadic"}
    case 12 => {"verbose", "when", "where", "window", "with"}
    case _ => {}
  }

  predicate IsKeyWord(word: string) {
    exists line | 0 <= line < 13 :: word in KeyWords(line)
  }

  predicate IsReserved(name: string) {
    IsKeyWord(Folded(name))
  }

  /** The views of `information_schema`, chapter 37 of the PostgreSQL 17 documentation. */
  function CatalogueNames(line: nat): set<string> {
    match line
    case 0 => {"administrable_role_authorizations", "applicable_roles", "attributes", "character_sets"}
    case 1 => {"check_constraint_routine_usage", "check_constraints"}
    case 2 => {"collation_character_set_applicability", "collations", "column_column_usage"}
    case 3 => {"column_domain_usage", "column_options", "column_privileges", "column_udt_usage"}
    case 4 => {"columns", "constraint_column_usage", "constraint_table_usage", "data_type_privileges"}
    case 5 => {"domain_constraints", "domain_udt_usage", "domains", "element_types", "enabled_roles"}
    case 6 => {"foreign_data_wrapper_options", "foreign_data_wrappers", "foreign_server_options"}
    case 7 => {"foreign_servers", "foreign_table_options", "foreign_tables"}
    case 8 => {"information_schema_catalog_name", "key_column_usage", "parameters"}
    case 9 => {"referential_constraints", "role_column_grants", "role_routine_grants"}
    case 10 => {"role_table_grants", "role_udt_grants", "role_usage_grants", "routine_column_usage"}
    case 11 => {"routine_privileges", "routine_routine_usage", "routine_sequence_usage"}
    case 12 => {"routine_table_usage", "routines", "schemata", "sequences", "sql_features"}
    case 13 => {"sql_implementation_info", "sql_parts", "sql_sizing", "table_constraints"}
    case 14 => {"table_privileges", "tables", "transforms", "triggered_update_columns", "triggers"}
    case 15 => {"udt_privileges", "usage_privileges", "user_defined_types", "user_mapping_options"}
    case 16 => {"user_mappings", "view_column_usage", "view_routine_usage", "view_table_usage", "views"}
    case _ => {}
  }

  /** A query of `information_schema.tables` by name alone finds these in every database. */
  predicate IsCatalogued(name: string) {
    exists line | 0 <= line < 17 :: name in CatalogueNames(line)
  }

  /** The names the server keeps for its own catalogues. */
  predicate IsSystemName(name: string) {
    "pg_" <= Folded(name) || "_pg_" <= Folded(name)
  }

  lemma FoldedTwice(name: string)
    ensures Folded(Folded(name)) == Folded(name)
  {
    var once := Folded(name);
    var twice := Folded(once);
    assert forall i | 0 <= i < |name| :: twice[i] == once[i];
  }
}
