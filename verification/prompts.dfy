/** The inscription-id prompt of `main` (lines 123-128): the question is
    asked again until the answer ends with "i0". The answers typed at the
    terminal are a sequence; running out of them stands for the user never
    giving a valid id. */
module Prompts {
  import opened Python
  import opened Text

  /** The only check the generator makes on an inscription id. */
  predicate ValidInscriptionId(id: string)
  {
    EndsWith(id, "i0")
  }

  /** An id is valid exactly when it is some text followed by "i0". */
  lemma ValidInscriptionIdShape(id: string)
    ensures ValidInscriptionId(id) <==> exists prefix :: id == prefix + "i0"
  {
    if ValidInscriptionId(id) {
      var prefix := id[..|id| - 2];
      assert id == prefix + id[|id| - 2..];
    }
    if exists prefix :: id == prefix + "i0" {
      var prefix :| id == prefix + "i0";
      assert id[|id| - 2..] == "i0";
    }
  }

  /** Lines 123-128: read answers until one ends with "i0". The id kept is
      the first valid answer, and every answer before it was rejected; no
      id is obtained only when no answer is valid. */
  method PromptInscriptionId(answers: seq<string>) returns (id: Option<string>, asked: nat)
    ensures asked <= |answers|
    ensures id.Some? <==> exists k :: 0 <= k < |answers| && ValidInscriptionId(answers[k])
    ensures id.Some? ==> 1 <= asked <= |answers| && id.value == answers[asked - 1] && ValidInscriptionId(id.value)
    ensures forall j :: 0 <= j < asked - 1 ==> !ValidInscriptionId(answers[j])
    ensures id.None? ==> asked == |answers|
  {
    asked := 0;
    while asked < |answers|
      invariant asked <= |answers|
      invariant forall j :: 0 <= j < asked ==> !ValidInscriptionId(answers[j])
    {
      var answer := answers[asked];
      asked := asked + 1;
      if ValidInscriptionId(answer) {
        return Some(answer), asked;
      }
    }
    id := None;
  }
}
