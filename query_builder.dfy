/** `build_query`: the field-prefixed search string for one topic. */
module QueryBuilder {
  import opened PyStr

  const OrSeparator: string := " OR "

  /** The fields the search syntax can scope a term to, in the order
      `build_query` tries them, each with its prefix. */
  datatype Field = Title | Abstract | Keywords

  const FieldOrder: seq<Field> := [Title, Abstract, Keywords]

  function Prefix(f: Field): string {
    match f
    case Title => "title:"
    case Abstract => "abstract:"
    case Keywords => "keywords:"
  }

  function IsSelected(f: Field, searchTitle: bool, searchAbstract: bool, searchKeywords: bool): bool {
    match f
    case Title => searchTitle
    case Abstract => searchAbstract
    case Keywords => searchKeywords
  }

  /** The prefixed terms for the selected fields among `fields`, in order. */
  function SelectedTerms(topic: string, fields: seq<Field>,
                         searchTitle: bool, searchAbstract: bool, searchKeywords: bool): (terms: seq<string>)
    ensures |terms| <= |fields|
    decreases |fields|
  {
    if fields == [] then []
    else
      var rest := SelectedTerms(topic, fields[1..], searchTitle, searchAbstract, searchKeywords);
      if IsSelected(fields[0], searchTitle, searchAbstract, searchKeywords)
      then [Prefix(fields[0]) + topic] + rest
      else rest
  }

  /** `build_query(topic, search_title, search_abstract, search_keywords)`:
      the topic itself when no field is selected, otherwise the selected
      prefixed terms in title/abstract/keywords order joined by " OR ". */
  method BuildQuery(topic: string, searchTitle: bool, searchAbstract: bool, searchKeywords: bool)
    returns (query: string)
    ensures !searchTitle && !searchAbstract && !searchKeywords ==> query == topic
    ensures searchTitle || searchAbstract || searchKeywords ==>
      query == Join(SelectedTerms(topic, FieldOrder, searchTitle, searchAbstract, searchKeywords), OrSeparator)
  {
    var queryParts: seq<string> := [];
    if searchTitle {
      queryParts := queryParts + ["title:" + topic];
    }
    if searchAbstract {
      queryParts := queryParts + ["abstract:" + topic];
    }
    if searchKeywords {
      queryParts := queryParts + ["keywords:" + topic];
    }
    assert queryParts == SelectedTerms(topic, FieldOrder, searchTitle, searchAbstract, searchKeywords) by {
      assert FieldOrder[1..] == [Abstract, Keywords];
      assert FieldOrder[1..][1..] == [Keywords];
      assert FieldOrder[1..][1..][1..] == [];
    }
    if queryParts == [] {
      return topic;
    }
    query := Join(queryParts, OrSeparator);
  }

  /** Distinct fields give distinct terms: the prefixes already differ in
      their first character. */
  lemma PrefixInjective(f: Field, g: Field, topic: string)
    requires Prefix(f) + topic == Prefix(g) + topic
    ensures f == g
  {
    assert (Prefix(f) + topic)[0] == Prefix(f)[0];
    assert (Prefix(g) + topic)[0] == Prefix(g)[0];
  }

  /** A field's term is among the selected terms exactly when that field is
      selected. */
  lemma {:induction false} SelectedTermsExact(topic: string, fields: seq<Field>,
                                               t: bool, a: bool, w: bool, f: Field)
    requires f in fields
    ensures Prefix(f) + topic in SelectedTerms(topic, fields, t, a, w) <==> IsSelected(f, t, a, w)
    decreases |fields|
  {
    var rest := SelectedTerms(topic, fields[1..], t, a, w);
    if f in fields[1..] {
      SelectedTermsExact(topic, fields[1..], t, a, w, f);
    } else {
      TermNotInOthers(topic, fields[1..], t, a, w, f);
    }
    if IsSelected(fields[0], t, a, w) && Prefix(fields[0]) + topic == Prefix(f) + topic {
      PrefixInjective(fields[0], f, topic);
    }
  }

  /** A field not listed contributes no term. */
  lemma {:induction false} TermNotInOthers(topic: string, fields: seq<Field>,
                                            t: bool, a: bool, w: bool, f: Field)
    requires f !in fields
    ensures Prefix(f) + topic !in SelectedTerms(topic, fields, t, a, w)
    decreases |fields|
  {
    if fields != [] {
      TermNotInOthers(topic, fields[1..], t, a, w, f);
      if Prefix(fields[0]) + topic == Prefix(f) + topic {
        PrefixInjective(fields[0], f, topic);
      }
    }
  }

  /** With all three fields selected the query names all three, in order. */
  lemma AllFieldsQuery(topic: string)
    ensures Join(SelectedTerms(topic, FieldOrder, true, true, true), OrSeparator)
            == "title:" + topic + " OR abstract:" + topic + " OR keywords:" + topic
  {
    assert FieldOrder[1..] == [Abstract, Keywords];
    assert FieldOrder[1..][1..] == [Keywords];
    assert FieldOrder[1..][1..][1..] == [];
    var terms := ["title:" + topic, "abstract:" + topic, "keywords:" + topic];
    assert SelectedTerms(topic, FieldOrder, true, true, true) == terms;
    assert terms[1..] == ["abstract:" + topic, "keywords:" + topic];
    assert terms[1..][1..] == ["keywords:" + topic];
    assert Join(terms[1..][1..], OrSeparator) == "keywords:" + topic;
    assert Join(terms[1..], OrSeparator) == "abstract:" + topic + OrSeparator + "keywords:" + topic;
    assert OrSeparator + "abstract:" == " OR abstract:";
    assert OrSeparator + "keywords:" == " OR keywords:";
  }

  /** The query mentions every selected field's prefixed term. */
  lemma QueryMentionsSelectedFields(topic: string, searchTitle: bool, searchAbstract: bool,
                                    searchKeywords: bool, f: Field)
    requires IsSelected(f, searchTitle, searchAbstract, searchKeywords)
    ensures Contains(Join(SelectedTerms(topic, FieldOrder, searchTitle, searchAbstract, searchKeywords), OrSeparator),
                     Prefix(f) + topic)
  {
    var terms := SelectedTerms(topic, FieldOrder, searchTitle, searchAbstract, searchKeywords);
    assert f in FieldOrder by { assert f == Title || f == Abstract || f == Keywords; }
    SelectedTermsExact(topic, FieldOrder, searchTitle, searchAbstract, searchKeywords, f);
    var k :| 0 <= k < |terms| && terms[k] == Prefix(f) + topic;
    JoinContainsParts(terms, OrSeparator, k);
  }
}
