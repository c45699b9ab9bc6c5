/** The registration page's list of members not yet saved: the member form
    checks a submission and appends it under a locally generated `_id`; the
    preview removes entries by that `_id`. */
module Members {
  import opened Wrappers
  import opened Cpf

  /** A member's address as the form nests it. */
  datatype Address = Address(line: string, cep: string)

  /** The record the member form hands over. Text inputs arrive as strings;
      an empty string stands for a field left blank. */
  datatype Member = Member(
    fullName: string,
    birthDate: string,
    motherName: string,
    address: Address,
    cep: string,
    cpf: string,
    phone: string,
    email: string,
    rg: string,
    meiCnpj: string,
    gender: string,
    ethnicity: string,
    education: string,
    householdCount: string,
    roleInGroup: string,
    productsServices: string,
    rawMaterials: string,
    monthlyIncomeRange: string,
    solidarityInvolvement: string,
    otherOccupation: Option<string>)

  /** The raw values of the member form's fields. */
  datatype FormValues = FormValues(
    fullName: string,
    birthDate: string,
    motherName: string,
    addressLine: string,
    cep: string,
    cpf: string,
    phone: string,
    email: string,
    rg: string,
    meiCnpj: string,
    gender: string,
    ethnicity: string,
    education: string,
    householdCount: string,
    roleInGroup: string,
    productsServices: string,
    rawMaterials: string,
    monthlyIncomeRange: string,
    solidarityInvolvement: string,
    otherOccupation: string)

  /** A member waiting to be saved, tagged with its local `_id`. */
  datatype Pending = Pending(id: string, member: Member)

  /** Why a submission was refused (each shown as an alert). */
  datatype SubmitError = NameRequired | InvalidCpf

  /** The id is used by no entry of the list. */
  predicate FreshId(list: seq<Pending>, id: string) {
    forall i :: 0 <= i < |list| ==> list[i].id != id
  }

  /** No two entries share an id. */
  predicate UniqueIds(list: seq<Pending>) {
    forall i, j :: 0 <= i < j < |list| ==> list[i].id != list[j].id
  }

  /** Every entry passed the member form's checks. */
  predicate AllAccepted(list: seq<Pending>) {
    forall i :: 0 <= i < |list| ==> list[i].member.fullName != "" && ValidateCpf(list[i].member.cpf)
  }

  /** `onAddMemberLocally`: append the member under the id given. */
  function AddPending(list: seq<Pending>, member: Member, id: string): (r: seq<Pending>)
    ensures |r| == |list| + 1
    ensures r[..|list|] == list
    ensures r[|list|] == Pending(id, member)
  {
    list + [Pending(id, member)]
  }

  /** `onRemovePending`: keep the entries whose id differs, in order. */
  function RemovePending(list: seq<Pending>, id: string): (r: seq<Pending>)
    ensures |r| <= |list|
    ensures forall p :: p in r <==> p in list && p.id != id
    ensures FreshId(r, id)
  {
    if list == [] then []
    else (if list[0].id != id then [list[0]] else []) + RemovePending(list[1..], id)
  }

  /** Removing distributes over concatenation: with the one-entry case this
      pins `RemovePending` down as the order-preserving filter. */
  lemma {:induction false} RemoveAppend(a: seq<Pending>, b: seq<Pending>, id: string)
    ensures RemovePending(a + b, id) == RemovePending(a, id) + RemovePending(b, id)
    decreases |a|
  {
    if a == [] {
      assert a + b == b;
    } else {
      assert (a + b)[0] == a[0];
      assert (a + b)[1..] == a[1..] + b;
      RemoveAppend(a[1..], b, id);
    }
  }

  /** Removing an id no entry carries changes nothing. */
  lemma {:induction false} RemoveAbsent(list: seq<Pending>, id: string)
    requires FreshId(list, id)
    ensures RemovePending(list, id) == list
    decreases |list|
  {
    if list != [] {
      RemoveAbsent(list[1..], id);
    }
  }

  /** Adding under a fresh id and then removing that id gives back the list
      as it was. */
  lemma AddThenRemove(list: seq<Pending>, member: Member, id: string)
    requires FreshId(list, id)
    ensures RemovePending(AddPending(list, member, id), id) == list
  {
    RemoveAppend(list, [Pending(id, member)], id);
    RemoveAbsent(list, id);
    assert RemovePending([Pending(id, member)], id) == [];
  }

  /** Removing twice is removing once. */
  lemma RemoveIdempotent(list: seq<Pending>, id: string)
    ensures RemovePending(RemovePending(list, id), id) == RemovePending(list, id)
  {
    RemoveAbsent(RemovePending(list, id), id);
  }

  /** With unique ids, removing an id that is present drops exactly one entry. */
  lemma {:induction false} RemovePresentUnique(list: seq<Pending>, id: string)
    requires UniqueIds(list)
    requires exists i :: 0 <= i < |list| && list[i].id == id
    ensures |RemovePending(list, id)| == |list| - 1
    decreases |list|
  {
    if list[0].id == id {
      assert FreshId(list[1..], id) by {
        forall i | 0 <= i < |list[1..]|
          ensures list[1..][i].id != id
        {
          assert list[1..][i] == list[i + 1];
        }
      }
      RemoveAbsent(list[1..], id);
    } else {
      var i :| 0 <= i < |list| && list[i].id == id;
      assert list[1..][i - 1] == list[i];
      RemovePresentUnique(list[1..], id);
    }
  }

  /** Adding under a fresh id keeps the ids unique. */
  lemma AddKeepsIdsUnique(list: seq<Pending>, member: Member, id: string)
    requires UniqueIds(list) && FreshId(list, id)
    ensures UniqueIds(AddPending(list, member, id))
  {
  }

  /** Removing keeps the ids unique. */
  lemma {:induction false} RemoveKeepsIdsUnique(list: seq<Pending>, id: string)
    requires UniqueIds(list)
    ensures UniqueIds(RemovePending(list, id))
    decreases |list|
  {
    if list != [] {
      var tail := RemovePending(list[1..], id);
      assert UniqueIds(list[1..]) by {
        forall i, j | 0 <= i < j < |list[1..]|
          ensures list[1..][i].id != list[1..][j].id
        {
          assert list[1..][i] == list[i + 1] && list[1..][j] == list[j + 1];
        }
      }
      RemoveKeepsIdsUnique(list[1..], id);
      if list[0].id != id {
        forall p | p in tail
          ensures p.id != list[0].id
        {
          var k :| 0 <= k < |list[1..]| && list[1..][k] == p;
          assert list[k + 1] == p;
        }
        var r := [list[0]] + tail;
        forall i, j | 0 <= i < j < |r|
          ensures r[i].id != r[j].id
        {
          if i == 0 {
            assert r[j] == tail[j - 1];
            assert r[j] in tail;
          } else {
            assert r[i] == tail[i - 1] && r[j] == tail[j - 1];
          }
        }
      }
    }
  }

  /** Removing keeps every remaining entry one the form accepted. */
  lemma RemoveKeepsAccepted(list: seq<Pending>, id: string)
    requires AllAccepted(list)
    ensures AllAccepted(RemovePending(list, id))
  {
  }

  /** The record built from the form values; the other-occupation text is
      kept only when the "develops another activity" box is ticked. */
  function BuildMember(vals: FormValues, developsOther: bool): (m: Member)
    ensures m.fullName == vals.fullName && m.cpf == vals.cpf
    ensures m.address == Address(vals.addressLine, vals.cep) && m.cep == vals.cep
    ensures m.otherOccupation.Some? <==> developsOther
    ensures developsOther ==> m.otherOccupation == Some(vals.otherOccupation)
  {
    Member(
      vals.fullName, vals.birthDate, vals.motherName,
      Address(vals.addressLine, vals.cep), vals.cep, vals.cpf,
      vals.phone, vals.email, vals.rg, vals.meiCnpj,
      vals.gender, vals.ethnicity, vals.education, vals.householdCount,
      vals.roleInGroup, vals.productsServices, vals.rawMaterials,
      vals.monthlyIncomeRange, vals.solidarityInvolvement,
      if developsOther then Some(vals.otherOccupation) else None)
  }

  /** `MemberForm.submit` followed by `onAddMemberLocally`: a blank name is
      refused first, then a blank or invalid CPF; otherwise the member is
      appended under `freshId`. */
  function Submit(list: seq<Pending>, vals: FormValues, developsOther: bool, freshId: string)
    : (r: Result<seq<Pending>, SubmitError>)
    ensures r.Ok? <==> vals.fullName != "" && ValidateCpf(vals.cpf)
    ensures r == Err(NameRequired) <==> vals.fullName == ""
    ensures r.Ok? ==> |r.value| == |list| + 1 && r.value[..|list|] == list
    ensures r.Ok? ==> r.value[|list|].id == freshId && r.value[|list|].member == BuildMember(vals, developsOther)
  {
    if vals.fullName == "" then Err(NameRequired)
    else if vals.cpf == "" || !ValidateCpf(vals.cpf) then Err(InvalidCpf)
    else Ok(AddPending(list, BuildMember(vals, developsOther), freshId))
  }

  /** The `!vals.cpf` test in front of the validator rejects nothing the
      validator would accept: an empty string has no digits. */
  lemma BlankCpfRejectedByValidator()
    ensures !ValidateCpf("")
  {
  }

  /** Submitting keeps the list made only of accepted members with unique
      ids, when the new id is fresh. */
  lemma SubmitKeepsInvariant(list: seq<Pending>, vals: FormValues, developsOther: bool, freshId: string)
    requires AllAccepted(list) && UniqueIds(list) && FreshId(list, freshId)
    ensures Submit(list, vals, developsOther, freshId).Ok? ==>
      && AllAccepted(Submit(list, vals, developsOther, freshId).value)
      && UniqueIds(Submit(list, vals, developsOther, freshId).value)
  {
  }
}
