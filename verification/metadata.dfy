/** The two metadata records written for every artifact, and the ordered
    trait dictionary they are built from. */
module Metadata {
  import opened Python
  import opened Template

  /** A Python dict from trait type (a layer label) to trait value, as its
      items in insertion order. */
  type Traits = seq<(string, string)>

  /** The keys of a dictionary, in insertion order. */
  function Keys(traits: Traits): (r: seq<string>)
    ensures |r| == |traits| && forall i :: 0 <= i < |traits| ==> r[i] == traits[i].0
  {
    if traits == [] then [] else [traits[0].0] + Keys(traits[1..])
  }

  /** A dictionary never holds a key twice. */
  predicate DistinctKeys(traits: Traits)
  {
    forall i, j :: 0 <= i < j < |traits| ==> traits[i].0 != traits[j].0
  }

  /** `traits.get(key)`. */
  function Lookup(traits: Traits, key: string): (r: Option<string>)
    ensures r.None? <==> key !in Keys(traits)
  {
    if traits == [] then None
    else if traits[0].0 == key then Some(traits[0].1)
    else Lookup(traits[1..], key)
  }

  /** `traits[key] = value`. */
  function Put(traits: Traits, key: string, value: string): Traits
  {
    if traits == [] then [(key, value)]
    else if traits[0].0 == key then [(key, value)] + traits[1..]
    else [traits[0]] + Put(traits[1..], key, value)
  }

  /** After `traits[key] = value` the key reads back the new value and every
      other key its old one. */
  lemma {:induction false} PutLookup(traits: Traits, key: string, value: string)
    ensures Lookup(Put(traits, key, value), key) == Some(value)
    ensures forall k :: k != key ==> Lookup(Put(traits, key, value), k) == Lookup(traits, k)
  {
    if traits != [] && traits[0].0 != key {
      PutLookup(traits[1..], key, value);
      assert Put(traits, key, value)[1..] == Put(traits[1..], key, value);
    }
  }

  /** An existing key keeps its place; a new key goes last. */
  lemma {:induction false} PutKeys(traits: Traits, key: string, value: string)
    ensures key in Keys(traits) ==> Keys(Put(traits, key, value)) == Keys(traits)
    ensures key !in Keys(traits) ==> Keys(Put(traits, key, value)) == Keys(traits) + [key]
  {
    if traits != [] && traits[0].0 != key {
      var rest := Put(traits[1..], key, value);
      PutKeys(traits[1..], key, value);
      assert Keys([traits[0]] + rest) == [traits[0].0] + Keys(rest);
      assert Keys(traits) == [traits[0].0] + Keys(traits[1..]);
    }
  }

  /** Writing a key keeps a dictionary free of repeated keys. */
  lemma PutDistinct(traits: Traits, key: string, value: string)
    requires DistinctKeys(traits)
    ensures DistinctKeys(Put(traits, key, value))
  {
    PutKeys(traits, key, value);
    var r := Put(traits, key, value);
    var keys, keys' := Keys(traits), Keys(r);
    forall i, j | 0 <= i < j < |r| ensures r[i].0 != r[j].0 {
      assert keys'[i] == r[i].0 && keys'[j] == r[j].0;
      if key !in keys && j == |traits| {
        assert keys'[i] == keys[i];
      }
    }
  }

  /** In a dictionary without repeated keys every item is what looking its
      key up returns. */
  lemma {:induction false} LookupItems(traits: Traits, i: nat)
    requires DistinctKeys(traits) && i < |traits|
    ensures Lookup(traits, traits[i].0) == Some(traits[i].1)
  {
    if i > 0 {
      LookupItems(traits[1..], i - 1);
    }
  }

  /** One `{"trait_type": ..., "value": ...}` object. */
  datatype Attribute = Attribute(traitType: string, value: string)

  /** The `"meta"` object of a schema-A record. */
  datatype OwMeta = OwMeta(name: string, attributes: seq<Attribute>)

  /** A schema-A (OW) record: an empty id and the nested meta object. */
  datatype OwEntry = OwEntry(id: string, meta: OwMeta)

  /** A schema-B (DM) record: an empty inscription id, the name, and the
      trait dictionary itself as the attributes. */
  datatype DmEntry = DmEntry(inscriptionId: string, name: string, attributes: Traits)

  /** The attribute list of a schema-A record, one object per item. */
  function AttributesOf(traits: Traits): (r: seq<Attribute>)
    ensures |r| == |traits|
    ensures forall i :: 0 <= i < |traits| ==> r[i].traitType == traits[i].0 && r[i].value == traits[i].1
  {
    if traits == [] then [] else [Attribute(traits[0].0, traits[0].1)] + AttributesOf(traits[1..])
  }

  /** The items an attribute list was built from. */
  function ItemsOf(attributes: seq<Attribute>): Traits
  {
    if attributes == [] then [] else [(attributes[0].traitType, attributes[0].value)] + ItemsOf(attributes[1..])
  }

  /** The attribute list loses nothing: the dictionary's items read back in
      the same order. */
  lemma {:induction false} AttributesRoundTrip(traits: Traits)
    ensures ItemsOf(AttributesOf(traits)) == traits
  {
    if traits != [] {
      AttributesRoundTrip(traits[1..]);
      assert AttributesOf(traits)[1..] == AttributesOf(traits[1..]);
    }
  }

  /** Lines 35-42: `generate_metadata_entry_ow`. */
  function OwMetadataEntry(collectionName: string, index: nat, traits: Traits): OwEntry
  {
    OwEntry("", OwMeta(DisplayName(collectionName, index), AttributesOf(traits)))
  }

  /** Lines 44-49: `generate_metadata_entry_dm`. */
  function DmMetadataEntry(collectionName: string, index: nat, traits: Traits): DmEntry
  {
    DmEntry("", DisplayName(collectionName, index), traits)
  }

  /** The two records of one artifact agree: both carry an empty id and the
      display name, and the OW attribute list holds exactly the DM
      dictionary's items, in its order, each trait type once with the value
      the dictionary gives it. */
  lemma RecordsAgree(collectionName: string, index: nat, traits: Traits)
    requires DistinctKeys(traits)
    ensures var ow, dm := OwMetadataEntry(collectionName, index, traits), DmMetadataEntry(collectionName, index, traits);
            && ow.id == "" && dm.inscriptionId == ""
            && ow.meta.name == dm.name == DisplayName(collectionName, index)
            && ItemsOf(ow.meta.attributes) == dm.attributes
            && |ow.meta.attributes| == |Keys(dm.attributes)|
            && (forall i :: 0 <= i < |ow.meta.attributes| ==>
                  ow.meta.attributes[i].traitType == Keys(dm.attributes)[i]
                  && Lookup(dm.attributes, ow.meta.attributes[i].traitType) == Some(ow.meta.attributes[i].value))
  {
    var attributes := OwMetadataEntry(collectionName, index, traits).meta.attributes;
    assert attributes == AttributesOf(traits);
    AttributesRoundTrip(traits);
    forall i | 0 <= i < |attributes|
      ensures Lookup(traits, attributes[i].traitType) == Some(attributes[i].value)
    {
      LookupItems(traits, i);
    }
  }
}
