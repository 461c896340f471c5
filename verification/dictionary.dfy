/**
 The lemma dictionary: a one-to-many map from a lemma to the set of surface
 forms ("concepts") filed under it, for one language. Lemmas keep the order
 in which they were first inserted, and the forms under a lemma behave as a
 set, as in an insertion-ordered set multimap.
 */
module Dictionaries {

  /** One lemma and the forms filed under it. */
  datatype Entry = Entry(key: string, concepts: set<string>)

  /** The entries in the order their lemmas were first inserted. */
  datatype Dictionary = Dictionary(language: string, entries: seq<Entry>)

  /** No lemma has two entries, and no entry is empty: a multimap holds a key
      only while some value is filed under it. */
  ghost predicate Valid(d: Dictionary)
  {
    && Distinct(Keys(d.entries))
    && (forall i | 0 <= i < |d.entries| :: d.entries[i].concepts != {})
  }

  ghost predicate Distinct(ks: seq<string>)
  {
    forall i, j | 0 <= i < j < |ks| :: ks[i] != ks[j]
  }

  /** The lemmas in insertion order. */
  function Keys(entries: seq<Entry>): (r: seq<string>)
    ensures |r| == |entries|
    ensures forall i | 0 <= i < |entries| :: r[i] == entries[i].key
  {
    if entries == [] then [] else [entries[0].key] + Keys(entries[1..])
  }

  /** The forms filed under the lemma `word`; none when it is not a key. */
  function ConceptsOf(d: Dictionary, word: string): set<string>
  {
    ConceptsIn(d.entries, word)
  }

  function ConceptsIn(entries: seq<Entry>, word: string): (r: set<string>)
    ensures word !in Keys(entries) ==> r == {}
    ensures forall i | 0 <= i < |entries| && entries[i].key == word && (forall j | 0 <= j < i :: entries[j].key != word) :: r == entries[i].concepts
  {
    if entries == [] then {}
    else if entries[0].key == word then entries[0].concepts
    else ConceptsIn(entries[1..], word)
  }

  /** An empty dictionary for `language`. */
  function New(language: string): (d: Dictionary)
    ensures Valid(d)
    ensures GetLang(d) == language
    ensures forall k :: !HasConcept(d, k)
  {
    Dictionary(language, [])
  }

  function GetLang(d: Dictionary): string
  {
    d.language
  }

  /** Whether `key` is a lemma of the dictionary. */
  predicate HasConcept(d: Dictionary, key: string)
  {
    key in Keys(d.entries)
  }

  /** The first lemma, in insertion order, whose forms include `concept`;
      the empty string when there is none. */
  function GetLemma(d: Dictionary, concept: string): (r: string)
    ensures (forall i | 0 <= i < |d.entries| :: concept !in d.entries[i].concepts) ==> r == ""
    ensures forall i | 0 <= i < |d.entries| && concept in d.entries[i].concepts && (forall j | 0 <= j < i :: concept !in d.entries[j].concepts) :: r == d.entries[i].key
  {
    FirstHolder(d.entries, concept)
  }

  function FirstHolder(entries: seq<Entry>, concept: string): (r: string)
    ensures (forall i | 0 <= i < |entries| :: concept !in entries[i].concepts) ==> r == ""
    ensures forall i | 0 <= i < |entries| && concept in entries[i].concepts && (forall j | 0 <= j < i :: concept !in entries[j].concepts) :: r == entries[i].key
  {
    if entries == [] then ""
    else if concept in entries[0].concepts then entries[0].key
    else FirstHolder(entries[1..], concept)
  }

  /** Files `concept` under the lemma `word`: added to its forms if `word`
      is a key, otherwise a new entry at the end. */
  function PutLemma(d: Dictionary, word: string, concept: string): (r: Dictionary)
    ensures GetLang(r) == GetLang(d)
    ensures HasConcept(r, word)
    ensures Keys(r.entries) == if HasConcept(d, word) then Keys(d.entries) else Keys(d.entries) + [word]
    ensures forall k :: ConceptsOf(r, k) == ConceptsOf(d, k) + (if k == word then {concept} else {})
    ensures Valid(d) ==> Valid(r)
  {
    PutKeepsValid(d, word, concept);
    Dictionary(d.language, Put(d.entries, word, concept))
  }

  lemma PutKeepsValid(d: Dictionary, word: string, concept: string)
    ensures Valid(d) ==> Valid(Dictionary(d.language, Put(d.entries, word, concept)))
  {
    if Valid(d) && word !in Keys(d.entries) {
      assert Distinct(Keys(d.entries) + [word]);
    }
  }

  function Put(entries: seq<Entry>, word: string, concept: string): (r: seq<Entry>)
    ensures word in Keys(r)
    ensures Keys(r) == if word in Keys(entries) then Keys(entries) else Keys(entries) + [word]
    ensures forall k :: ConceptsIn(r, k) == ConceptsIn(entries, k) + (if k == word then {concept} else {})
    ensures forall i | 0 <= i < |r| :: r[i].concepts != {} || (i < |entries| && r[i] == entries[i])
  {
    if entries == [] then [Entry(word, {concept})]
    else if entries[0].key == word then [Entry(word, entries[0].concepts + {concept})] + entries[1..]
    else [entries[0]] + Put(entries[1..], word, concept)
  }

  /** A non-empty answer of `GetLemma` is a lemma whose forms hold the concept. */
  lemma GetLemmaSound(d: Dictionary, concept: string)
    requires Valid(d)
    requires GetLemma(d, concept) != ""
    ensures HasConcept(d, GetLemma(d, concept))
    ensures concept in ConceptsOf(d, GetLemma(d, concept))
  {
    FirstHolderSound(d.entries, concept);
  }

  lemma {:induction false} FirstHolderSound(entries: seq<Entry>, concept: string)
    requires Distinct(Keys(entries))
    requires FirstHolder(entries, concept) != ""
    ensures FirstHolder(entries, concept) in Keys(entries)
    ensures concept in ConceptsIn(entries, FirstHolder(entries, concept))
  {
    if concept !in entries[0].concepts {
      var rest := entries[1..];
      var ks := Keys(entries);
      assert ks == [entries[0].key] + Keys(rest);
      assert Keys(rest) == ks[1..];
      FirstHolderSound(rest, concept);
      assert entries[0].key !in Keys(rest) by {
        forall i | 0 <= i < |rest| ensures Keys(rest)[i] != entries[0].key {
          assert Keys(rest)[i] == ks[i + 1];
        }
      }
    }
  }

  /** Filing a concept that no lemma holds yet makes `GetLemma` answer with
      that lemma. */
  lemma GetLemmaAfterPut(d: Dictionary, word: string, concept: string)
    requires forall i | 0 <= i < |d.entries| :: concept !in d.entries[i].concepts
    ensures GetLemma(PutLemma(d, word, concept), concept) == word
  {
    FirstHolderAfterPut(d.entries, word, concept);
  }

  lemma {:induction false} FirstHolderAfterPut(entries: seq<Entry>, word: string, concept: string)
    requires forall i | 0 <= i < |entries| :: concept !in entries[i].concepts
    ensures FirstHolder(Put(entries, word, concept), concept) == word
  {
    if entries != [] && entries[0].key != word {
      var rest := entries[1..];
      assert forall i | 0 <= i < |rest| :: concept !in rest[i].concepts by {
        forall i | 0 <= i < |rest| ensures concept !in rest[i].concepts {
          assert rest[i] == entries[i + 1];
        }
      }
      FirstHolderAfterPut(rest, word, concept);
      var after := Put(entries, word, concept);
      assert after[1..] == Put(rest, word, concept);
    }
  }

  /** Filing the same pair twice is the same as filing it once. */
  lemma PutLemmaIdempotent(d: Dictionary, word: string, concept: string)
    ensures PutLemma(PutLemma(d, word, concept), word, concept) == PutLemma(d, word, concept)
  {
    PutIdempotent(d.entries, word, concept);
  }

  lemma {:induction false} PutIdempotent(entries: seq<Entry>, word: string, concept: string)
    ensures Put(Put(entries, word, concept), word, concept) == Put(entries, word, concept)
  {
    var once := Put(entries, word, concept);
    if entries == [] {
      assert {concept} + {concept} == {concept};
    } else if entries[0].key == word {
      assert once[1..] == entries[1..];
      assert entries[0].concepts + {concept} + {concept} == entries[0].concepts + {concept};
    } else {
      PutIdempotent(entries[1..], word, concept);
      assert once[1..] == Put(entries[1..], word, concept);
    }
  }
}
