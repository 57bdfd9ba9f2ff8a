/**
 * The fixed table from XML-RPC type tokens to Python annotation names,
 * applied with pass-through for tokens it does not list.
 */
module TypeMap {

  const TypeTable: map<string, string> := map[
    "i4" := "int",
    "integer" := "int",
    "double" := "float",
    "dateTime" := "datetime",
    "dateTime.iso8601" := "datetime",
    "array" := "List",
    "string" := "str",
    "struct" := "Dict[str, any]",
    "boolean" := "bool"
  ]

  /**
   * `TYPE_MAP.get(t, t)`: a listed token becomes its target name, any other
   * token is returned as it is.
   */
  function Annotation(t: string): (r: string)
    ensures t in TypeTable ==> r == TypeTable[t]
    ensures t !in TypeTable ==> r == t
  {
    if t in TypeTable then TypeTable[t] else t
  }

  /** The nine listed tokens and the names they annotate to. */
  lemma KnownTokens()
    ensures Annotation("i4") == "int" && Annotation("integer") == "int"
    ensures Annotation("double") == "float"
    ensures Annotation("dateTime") == "datetime" && Annotation("dateTime.iso8601") == "datetime"
    ensures Annotation("array") == "List"
    ensures Annotation("string") == "str"
    ensures Annotation("struct") == "Dict[str, any]"
    ensures Annotation("boolean") == "bool"
  {
  }

  /** No target name is itself a listed token. */
  lemma AnnotationUnlisted(t: string)
    ensures Annotation(t) !in TypeTable
  {
  }

  /** Annotating twice changes nothing. */
  lemma AnnotationIdempotent(t: string)
    ensures Annotation(Annotation(t)) == Annotation(t)
  {
    AnnotationUnlisted(t);
  }
}
