/**
 What a mined transaction is allowed to be: `scripts/lib/common.ts`, from waiting for a receipt to
 naming the fields on which a replacement departs from the transaction that was signed.
 */
module Replacement {
  import opened Options
  import opened Text
  import opened CanonicalStructure

  /** The observed fields; an optional one that is absent is `Undefined`. */
  datatype Transaction = Transaction(
    hash: string,
    to: Option<string>,
    value: int,
    input: string,
    kind: Value,
    accessList: Value,
    blobVersionedHashes: Value,
    authorizationList: Value)

  datatype Replaced = Replaced(reason: string, replacedTransaction: Transaction, transaction: Transaction)

  datatype Receipt = Receipt(from: string, status: string)

  datatype Outcome =
    | Accepted(receipt: Receipt)
    | SignerMismatch
    | ReplacedTransaction(differing: seq<string>)
    | Reverted

  // ---------------------------------------------------------------- comparing two transactions

  predicate SameAddress(left: Option<string>, right: Option<string>) {
    if left.None? || right.None? then left == right else Lower(left.value) == Lower(right.value)
  }

  predicate SameOptionalStructure(left: Value, right: Value) {
    if left.Undefined? || right.Undefined? then left == right else Render(left) == Render(right)
  }

  const FIELDS: seq<string> :=
    ["to", "value", "input", "type", "accessList", "blobVersionedHashes", "authorizationList"]

  /** Both create a contract, or both go to one address, in whatever case it is written. */
  ghost predicate SameDestination(left: Option<string>, right: Option<string>) {
    match (left, right)
    case (None, None) => true
    case (Some(a), Some(b)) => SameLetters(a, b)
    case _ => false
  }

  /** Absent from both, or present in both with one rendering. */
  ghost predicate RenderedAlike(left: Value, right: Value) {
    (left.Undefined? <==> right.Undefined?) && Render(left) == Render(right)
  }

  lemma SameAddressExactly(left: Option<string>, right: Option<string>)
    ensures SameAddress(left, right) <==> SameDestination(left, right)
    ensures SameDestination(left, right) <==> SameDestination(right, left)
  {
    if left.Some? && right.Some? {
      LowerExactly(left.value, right.value);
    }
  }

  /** Whether the field of that index in FIELDS is the same on both. */
  ghost predicate SameField(i: int, a: Transaction, b: Transaction) {
    match i
    case 0 => SameDestination(a.to, b.to)
    case 1 => a.value == b.value
    case 2 => SameLetters(a.input, b.input)
    case 3 => RenderedAlike(a.kind, b.kind)
    case 4 => RenderedAlike(a.accessList, b.accessList)
    case 5 => RenderedAlike(a.blobVersionedHashes, b.blobVersionedHashes)
    case _ => RenderedAlike(a.authorizationList, b.authorizationList)
  }

  /** The names of the fields that differ among the first n, in declaration order. */
  ghost function Differing(n: nat, a: Transaction, b: Transaction): seq<string>
    requires n <= 7
  {
    if n == 0 then []
    else Differing(n - 1, a, b) + if SameField(n - 1, a, b) then [] else [FIELDS[n - 1]]
  }

  method DifferingSemanticFields(replaced: Transaction, mined: Transaction) returns (differing: seq<string>)
    ensures differing == Differing(7, replaced, mined)
  {
    hide Render, Lower, SameAddress, SameDestination, SameLetters;
    SameAddressExactly(mined.to, replaced.to);
    LowerExactly(replaced.input, mined.input);
    differing := [];
    if !SameAddress(mined.to, replaced.to) {
      differing := differing + ["to"];
    }
    assert differing == Differing(1, replaced, mined);
    if mined.value != replaced.value {
      differing := differing + ["value"];
    }
    assert differing == Differing(2, replaced, mined);
    if Lower(mined.input) != Lower(replaced.input) {
      differing := differing + ["input"];
    }
    assert differing == Differing(3, replaced, mined);
    if !SameOptionalStructure(mined.kind, replaced.kind) {
      differing := differing + ["type"];
    }
    assert differing == Differing(4, replaced, mined);
    if !SameOptionalStructure(mined.accessList, replaced.accessList) {
      differing := differing + ["accessList"];
    }
    assert differing == Differing(5, replaced, mined);
    if !SameOptionalStructure(mined.blobVersionedHashes, replaced.blobVersionedHashes) {
      differing := differing + ["blobVersionedHashes"];
    }
    assert differing == Differing(6, replaced, mined);
    if !SameOptionalStructure(mined.authorizationList, replaced.authorizationList) {
      differing := differing + ["authorizationList"];
    }
  }

  // ---------------------------------------------------------------- what a transaction means

  ghost predicate Formed(t: Transaction) {
    && WellFormed(t.kind) && WellFormed(t.accessList)
    && WellFormed(t.blobVersionedHashes) && WellFormed(t.authorizationList)
  }

  /** The structured fields of a transaction can be told apart by their renderings. */
  ghost predicate Legible(t: Transaction) {
    && Formed(t)
    && Clean(t.kind) && Clean(t.accessList)
    && Clean(t.blobVersionedHashes) && Clean(t.authorizationList)
  }

  /** Everything but the fee, the signature and the hash is the same, up to the case of hex digits. */
  ghost predicate SameMeaning(a: Transaction, b: Transaction) {
    && SameDestination(a.to, b.to)
    && a.value == b.value
    && SameLetters(a.input, b.input)
    && Agree(a.kind, b.kind)
    && Agree(a.accessList, b.accessList)
    && Agree(a.blobVersionedHashes, b.blobVersionedHashes)
    && Agree(a.authorizationList, b.authorizationList)
  }

  lemma StructureDecides(v: Value, w: Value)
    requires WellFormed(v) && WellFormed(w) && Clean(v) && Clean(w)
    ensures RenderedAlike(v, w) <==> Agree(v, w)
  {
    RenderingDecides(v, w);
    assert v.Undefined? || w.Undefined? ==> (Agree(v, w) <==> v == w);
  }

  /** No field is named exactly when the two transactions mean the same. */
  lemma NoDifferenceExactlyWhenSameMeaning(a: Transaction, b: Transaction)
    requires Legible(a) && Legible(b)
    ensures Differing(7, a, b) == [] <==> SameMeaning(a, b)
  {
    hide Agree, RenderedAlike, SameDestination, SameLetters, Differing, WellFormed, Clean;
    StructureDecides(a.kind, b.kind);
    StructureDecides(a.accessList, b.accessList);
    StructureDecides(a.blobVersionedHashes, b.blobVersionedHashes);
    StructureDecides(a.authorizationList, b.authorizationList);
    NothingDiffers(7, a, b);
    EveryField(a, b);
  }

  lemma EveryField(a: Transaction, b: Transaction)
    ensures (forall i :: 0 <= i < 7 ==> SameField(i, a, b))
       <==> && SameField(0, a, b) && SameField(1, a, b) && SameField(2, a, b) && SameField(3, a, b)
            && SameField(4, a, b) && SameField(5, a, b) && SameField(6, a, b)
  {
    hide SameField;
  }

  lemma {:induction false} NothingDiffers(n: nat, a: Transaction, b: Transaction)
    requires n <= 7
    ensures Differing(n, a, b) == [] <==> forall i :: 0 <= i < n ==> SameField(i, a, b)
  {
    if n > 0 {
      NothingDiffers(n - 1, a, b);
    }
  }

  function Named(name: string, differs: bool): seq<string> {
    if differs then [name] else []
  }

  /** Each of the seven fields is named, in that order, exactly when it differs. */
  lemma NamedExactlyWhenDiffers(a: Transaction, b: Transaction)
    requires Legible(a) && Legible(b)
    ensures Differing(7, a, b)
         == Named("to", !SameDestination(a.to, b.to))
            + Named("value", a.value != b.value)
            + Named("input", !SameLetters(a.input, b.input))
            + Named("type", !Agree(a.kind, b.kind))
            + Named("accessList", !Agree(a.accessList, b.accessList))
            + Named("blobVersionedHashes", !Agree(a.blobVersionedHashes, b.blobVersionedHashes))
            + Named("authorizationList", !Agree(a.authorizationList, b.authorizationList))
  {
    hide Agree, RenderedAlike, SameDestination, SameLetters, WellFormed, Clean, Differing, Named;
    StructureDecides(a.kind, b.kind);
    StructureDecides(a.accessList, b.accessList);
    StructureDecides(a.blobVersionedHashes, b.blobVersionedHashes);
    StructureDecides(a.authorizationList, b.authorizationList);
    NamedAmong(a, b);
  }

  lemma NamedAmong(a: Transaction, b: Transaction)
    ensures Differing(7, a, b)
         == Named("to", !SameField(0, a, b)) + Named("value", !SameField(1, a, b)) + Named("input", !SameField(2, a, b))
            + Named("type", !SameField(3, a, b)) + Named("accessList", !SameField(4, a, b))
            + Named("blobVersionedHashes", !SameField(5, a, b)) + Named("authorizationList", !SameField(6, a, b))
  {
    hide Differing, SameField, Named;
    NoneNamed(a, b);
    DifferingNext(0, "to", a, b);
    DifferingNext(1, "value", a, b);
    DifferingNext(2, "input", a, b);
    DifferingNext(3, "type", a, b);
    DifferingNext(4, "accessList", a, b);
    DifferingNext(5, "blobVersionedHashes", a, b);
    DifferingNext(6, "authorizationList", a, b);
    Chained(Named("to", !SameField(0, a, b)), Differing(1, a, b));
  }

  lemma Chained(first: seq<string>, whole: seq<string>)
    requires whole == [] + first
    ensures whole == first
  {
  }

  lemma NoneNamed(a: Transaction, b: Transaction)
    ensures Differing(0, a, b) == []
  {
  }

  lemma DifferingNext(n: nat, name: string, a: Transaction, b: Transaction)
    requires n < 7 && name == FIELDS[n]
    ensures Differing(n + 1, a, b) == Differing(n, a, b) + Named(name, !SameField(n, a, b))
  {
    hide SameField;
  }

  /** Meaning the same is an equivalence, on all transactions. */
  lemma SameMeaningIsEquivalence(a: Transaction, b: Transaction, c: Transaction)
    requires Formed(a) && Formed(b) && Formed(c)
    ensures SameMeaning(a, a)
    ensures SameMeaning(a, b) ==> SameMeaning(b, a)
    ensures SameMeaning(a, b) && SameMeaning(b, c) ==> SameMeaning(a, c)
  {
    hide Agree, WellFormed, Clean;
    AgreeIsEquivalence(a.kind, b.kind, c.kind);
    AgreeIsEquivalence(a.accessList, b.accessList, c.accessList);
    AgreeIsEquivalence(a.blobVersionedHashes, b.blobVersionedHashes, c.blobVersionedHashes);
    AgreeIsEquivalence(a.authorizationList, b.authorizationList, c.authorizationList);
  }

  lemma AgreeIsEquivalence(u: Value, v: Value, w: Value)
    requires WellFormed(u) && WellFormed(v) && WellFormed(w)
    ensures Agree(u, u)
    ensures Agree(u, v) ==> Agree(v, u)
    ensures Agree(u, v) && Agree(v, w) ==> Agree(u, w)
  {
    hide Agree, WellFormed;
    AgreeReflexive(u);
    if Agree(u, v) {
      AgreeSymmetric(u, v);
      if Agree(v, w) {
        AgreeTransitive(u, v, w);
      }
    }
  }

  /** However many times a transaction is repriced, each time acceptably, it keeps its meaning. */
  lemma {:induction false} RepricesKeepMeaning(chain: seq<Transaction>)
    requires chain != [] && forall i :: 0 <= i < |chain| ==> Legible(chain[i])
    requires forall i :: 0 < i < |chain| ==> Differing(7, chain[i - 1], chain[i]) == []
    ensures SameMeaning(chain[0], chain[|chain| - 1])
  {
    hide SameMeaning, Formed, Differing;
    var n := |chain| - 1;
    SameMeaningIsEquivalence(chain[0], chain[0], chain[0]);
    if n > 0 {
      RepricesKeepMeaning(chain[..n]);
      NoDifferenceExactlyWhenSameMeaning(chain[n - 1], chain[n]);
      SameMeaningIsEquivalence(chain[0], chain[n - 1], chain[n]);
    }
  }

  // ---------------------------------------------------------------- accepting a receipt

  /** Sender, then replacement, then status: the first check that fails names the outcome. */
  method WaitForSenderVerifiedReceipt(receipt: Receipt, replacement: Option<Replaced>, intendedSender: string)
    returns (outcome: Outcome)
    ensures outcome == Verdict(receipt, replacement, intendedSender)
  {
    LowerExactly(receipt.from, intendedSender);
    if Lower(receipt.from) != Lower(intendedSender) {
      return SignerMismatch;
    }
    if replacement.Some? {
      var observed := replacement.value;
      var differing := DifferingSemanticFields(observed.replacedTransaction, observed.transaction);
      if observed.reason != "repriced" || differing != [] {
        return ReplacedTransaction(differing);
      }
    }
    if receipt.status != "success" {
      return Reverted;
    }
    return Accepted(receipt);
  }

  ghost predicate Acceptable(observed: Replaced) {
    observed.reason == "repriced" && Differing(7, observed.replacedTransaction, observed.transaction) == []
  }

  ghost function Verdict(receipt: Receipt, replacement: Option<Replaced>, intendedSender: string): Outcome {
    if !SameLetters(receipt.from, intendedSender) then SignerMismatch
    else if replacement.Some? && !Acceptable(replacement.value) then
      ReplacedTransaction(Differing(7, replacement.value.replacedTransaction, replacement.value.transaction))
    else if receipt.status != "success" then Reverted
    else Accepted(receipt)
  }

  /**
   What the client reports of a mined transaction: nothing when it is the one that was signed, and
   otherwise both, with a reason it chooses itself.
   */
  ghost predicate Reported(signed: Transaction, mined: Transaction, replacement: Option<Replaced>) {
    match replacement
    case None => mined == signed
    case Some(observed) => observed.replacedTransaction == signed && observed.transaction == mined
  }

  /** Whatever reason the client gives, only a transaction that means what was signed is accepted. */
  lemma AcceptedExactly(signed: Transaction, mined: Transaction, replacement: Option<Replaced>,
                        receipt: Receipt, sender: string)
    requires Legible(signed) && Legible(mined) && Reported(signed, mined, replacement)
    ensures Verdict(receipt, replacement, sender).Accepted?
       <==> && SameLetters(receipt.from, sender)
            && receipt.status == "success"
            && SameMeaning(signed, mined)
            && (replacement.Some? ==> replacement.value.reason == "repriced")
  {
    NoDifferenceExactlyWhenSameMeaning(signed, mined);
    SameMeaningIsEquivalence(signed, signed, signed);
    hide SameLetters, Differing, SameMeaning;
  }

  /** The wrong sender comes before a replacement, and a replacement before a failure. */
  lemma RefusedExactly(signed: Transaction, mined: Transaction, replacement: Option<Replaced>,
                       receipt: Receipt, sender: string)
    requires Legible(signed) && Legible(mined) && Reported(signed, mined, replacement)
    ensures var verdict := Verdict(receipt, replacement, sender);
            var kept := replacement.None? || (replacement.value.reason == "repriced" && SameMeaning(signed, mined));
            && (verdict.SignerMismatch? <==> !SameLetters(receipt.from, sender))
            && (verdict.ReplacedTransaction? <==> SameLetters(receipt.from, sender) && !kept)
            && (verdict.ReplacedTransaction? ==> verdict.differing == Differing(7, signed, mined))
            && (verdict.Reverted? <==> SameLetters(receipt.from, sender) && kept && receipt.status != "success")
            && (verdict.Accepted? ==> verdict.receipt == receipt)
  {
    NoDifferenceExactlyWhenSameMeaning(signed, mined);
    hide SameLetters, Differing, SameMeaning;
  }
}
