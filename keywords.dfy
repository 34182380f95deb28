/** Keyword selection over the annotations of the article text: first the
    names of organisations, people, places and nationalities, with no cap,
    then content words while the list is still shorter than the requested
    number of keywords. The language model that produces the annotations is
    not modelled; its named entities and tokens are inputs. */
module Keywords {
  import opened Builtins

  /** A named entity: its label (`kind`, such as "ORG") and its text. */
  datatype Entity = Entity(kind: string, text: string)

  /** A token with its stop-word and punctuation flags and its coarse part of speech. */
  datatype Token = Token(text: string, isStop: bool, isPunct: bool, pos: string)

  /** Entity labels whose texts are always kept. */
  const KeptLabels: seq<string> := ["ORG", "PERSON", "GPE", "NORP"]

  /** Parts of speech that make a token a content word. */
  const ContentTags: seq<string> := ["NOUN", "ADJ", "VERB"]

  /** The number of keywords asked for when the caller gives none. */
  const DefaultNumKeywords: int := 5

  predicate KeptEntity(e: Entity) { e.kind in KeptLabels }

  /** A token that may become a keyword if there is still room for it. */
  predicate Candidate(t: Token) { !t.isStop && !t.isPunct && t.pos in ContentTags }

  /** Texts of the kept entities, in entity order. */
  function EntityTexts(ents: seq<Entity>): seq<string>
  {
    if ents == [] then []
    else
      var last := ents[|ents| - 1];
      EntityTexts(ents[..|ents| - 1]) + (if KeptEntity(last) then [last.text] else [])
  }

  /** Texts of the candidate tokens, in token order. */
  function CandidateTexts(tokens: seq<Token>): seq<string>
  {
    if tokens == [] then []
    else
      var last := tokens[|tokens| - 1];
      CandidateTexts(tokens[..|tokens| - 1]) + (if Candidate(last) then [last.text] else [])
  }

  /** The first n elements of s (all of s when it is shorter, none when n <= 0). */
  function Take(s: seq<string>, n: int): (r: seq<string>)
  {
    if n <= 0 then [] else s[..Min(n, |s|)]
  }

  /** Reference selection: every kept entity, then as many candidate tokens
      as fit below numKeywords counting the entities already taken. */
  function Selection(ents: seq<Entity>, tokens: seq<Token>, numKeywords: int): seq<string>
  {
    var named := EntityTexts(ents);
    named + Take(CandidateTexts(tokens), numKeywords - |named|)
  }

  /** `extract_keywords`, with the annotations of the text given as inputs. */
  method ExtractKeywords(ents: seq<Entity>, tokens: seq<Token>, numKeywords: int := DefaultNumKeywords)
    returns (keywords: seq<string>)
    ensures keywords == Selection(ents, tokens, numKeywords)
  {
    keywords := [];
    for i := 0 to |ents|
      invariant keywords == EntityTexts(ents[..i])
    {
      assert ents[..i + 1][..i] == ents[..i];
      if ents[i].kind in KeptLabels {
        keywords := keywords + [ents[i].text];
      }
    }
    assert ents[..|ents|] == ents;
    ghost var named := keywords;
    for i := 0 to |tokens|
      invariant keywords == named + Take(CandidateTexts(tokens[..i]), numKeywords - |named|)
    {
      assert tokens[..i + 1][..i] == tokens[..i];
      var token := tokens[i];
      if token.isStop || token.isPunct {
        continue;
      }
      if token.pos in ContentTags && |keywords| < numKeywords {
        keywords := keywords + [token.text];
      }
    }
    assert tokens[..|tokens|] == tokens;
  }

  /** A text is among the entity keywords exactly when some kept entity has it. */
  lemma {:induction false} EntityTextsMembers(ents: seq<Entity>, x: string)
    ensures x in EntityTexts(ents) <==> exists e :: e in ents && KeptEntity(e) && e.text == x
  {
    if ents != [] {
      var front, last := ents[..|ents| - 1], ents[|ents| - 1];
      EntityTextsMembers(front, x);
      assert ents == front + [last];
    }
  }

  /** A text is among the candidate texts exactly when some candidate token has it. */
  lemma {:induction false} CandidateTextsMembers(tokens: seq<Token>, x: string)
    ensures x in CandidateTexts(tokens) <==> exists t :: t in tokens && Candidate(t) && t.text == x
  {
    if tokens != [] {
      var front, last := tokens[..|tokens| - 1], tokens[|tokens| - 1];
      CandidateTextsMembers(front, x);
      assert tokens == front + [last];
    }
  }

  /** The entity keywords come first, unchanged and uncapped, whatever numKeywords is. */
  lemma EntitiesFirst(ents: seq<Entity>, tokens: seq<Token>, numKeywords: int)
    ensures |Selection(ents, tokens, numKeywords)| >= |EntityTexts(ents)|
    ensures Selection(ents, tokens, numKeywords)[..|EntityTexts(ents)|] == EntityTexts(ents)
    ensures |EntityTexts(ents)| >= numKeywords ==> Selection(ents, tokens, numKeywords) == EntityTexts(ents)
  {
  }

  /** With E entity keywords: no token is taken when E >= numKeywords, and
      otherwise exactly min(numKeywords - E, number of candidates) are. */
  lemma SelectionLength(ents: seq<Entity>, tokens: seq<Token>, numKeywords: int)
    ensures var e, c := |EntityTexts(ents)|, |CandidateTexts(tokens)|;
      |Selection(ents, tokens, numKeywords)| == if e >= numKeywords then e else e + Min(numKeywords - e, c)
  {
  }

  /** Every keyword is the text of a kept entity or of a candidate token, and
      every kept entity's text is a keyword. */
  lemma SelectionMembers(ents: seq<Entity>, tokens: seq<Token>, numKeywords: int, x: string)
    ensures x in Selection(ents, tokens, numKeywords) ==>
      (exists e :: e in ents && KeptEntity(e) && e.text == x) || (exists t :: t in tokens && Candidate(t) && t.text == x)
    ensures (exists e :: e in ents && KeptEntity(e) && e.text == x) ==> x in Selection(ents, tokens, numKeywords)
  {
    EntityTextsMembers(ents, x);
    CandidateTextsMembers(tokens, x);
    var named := EntityTexts(ents);
    var taken := Take(CandidateTexts(tokens), numKeywords - |named|);
    assert Selection(ents, tokens, numKeywords) == named + taken;
    if x in taken {
      assert x in CandidateTexts(tokens);
    }
  }
}
