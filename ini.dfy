/**
 * The INI documents the server reads (the `innit` crate's `IniDocument`), as
 * far as the server uses them: entries keyed by section and key, looked up
 * with an exact section name (`get`) or with one compared ignoring ASCII case
 * (`get_case_insensitive`). Parsing the file text is not modelled: a loaded
 * document is given as a value.
 */
module Ini {
  import opened Wrappers
  import opened Text

  /** One `key = value` line under a `[section]` header; top-level keys have section "". */
  datatype Entry = Entry(section: string, key: string, value: string)

  /** A document: its entries in file order. */
  type IniDocument = seq<Entry>

  /** `IniDocument::empty()`. */
  const Empty: IniDocument := []

  /** `get(key, section)`: the value of the first entry with exactly this section and key. */
  function Get(doc: IniDocument, key: string, section: string): (r: Option<string>)
    ensures r == None <==> forall e :: e in doc ==> !(e.section == section && e.key == key)
    ensures r.Some? ==> Entry(section, key, r.value) in doc
  {
    if doc == [] then None
    else if doc[0].section == section && doc[0].key == key then Some(doc[0].value)
    else Get(doc[1..], key, section)
  }

  /** `get_case_insensitive(key, section)`: as `Get`, with the section name compared ignoring ASCII case. */
  function GetCaseInsensitive(doc: IniDocument, key: string, section: string): (r: Option<string>)
    ensures r == None <==> forall e :: e in doc ==> !(EqualsIgnoreCase(e.section, section) && e.key == key)
    ensures r.Some? ==> exists e :: e in doc && EqualsIgnoreCase(e.section, section) && e.key == key && e.value == r.value
  {
    if doc == [] then None
    else if EqualsIgnoreCase(doc[0].section, section) && doc[0].key == key then Some(doc[0].value)
    else GetCaseInsensitive(doc[1..], key, section)
  }

  /** Two section names that differ only in ASCII case find the same value. */
  lemma {:induction false} CaseInsensitiveLookupAgrees(doc: IniDocument, key: string, s1: string, s2: string)
    requires EqualsIgnoreCase(s1, s2)
    ensures GetCaseInsensitive(doc, key, s1) == GetCaseInsensitive(doc, key, s2)
  {
    if doc != [] {
      CaseInsensitiveLookupAgrees(doc[1..], key, s1, s2);
    }
  }

  /** Whatever the exact lookup finds, the case-insensitive lookup finds something too. */
  lemma ExactMatchFoundIgnoringCase(doc: IniDocument, key: string, section: string)
    requires Get(doc, key, section).Some?
    ensures GetCaseInsensitive(doc, key, section).Some?
  {
    var e := Entry(section, key, Get(doc, key, section).value);
    assert e in doc && EqualsIgnoreCase(e.section, section);
  }
}
