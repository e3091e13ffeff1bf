/**
 The verifying-key registry and `verify_age_snark` (crypto-verifier/src/lib.rs).
 Parsing and Groth16 verification are parameters.
 */
module Verifier {
  import opened Wrappers
  import opened Bits
  import opened Multipack
  import opened R1cs
  import opened PublicInputs
  import opened Commit
  import opened Gadgets
  import opened AgeCircuit
  import opened AgeStatement
  import opened AgeCompleteness

  datatype VerifyError = InvalidInput | InvalidFormat | AlreadyInitialized | VerifierNotInitialized | VerificationFailed

  /** The proof system: parsed keys and proofs, and its verdict on public inputs. */
  datatype Groth16<!Vk, !Proof> = Groth16(loadVk: seq<byte> -> Option<Vk>, readProof: seq<byte> -> Option<Proof>,
                                          verifyProof: (Vk, Proof, seq<int>) -> bool)

  type Entries = seq<(u32, seq<byte>)>

  /** The parsed entries; a later entry replaces an earlier one with the same id. */
  function Loaded<Vk, Proof>(s: Groth16<Vk, Proof>, entries: Entries): Option<map<u32, Vk>> {
    if entries == [] then Some(map[]) else
      var last := |entries| - 1;
      var m :- Loaded(s, entries[..last]);
      var vk :- s.loadVk(entries[last].1);
      Some(m[entries[last].0 := vk])
  }

  /** Entry i is the last under its id. */
  predicate LastUnderId(entries: Entries, i: nat) {
    i < |entries| && forall j :: i < j < |entries| ==> entries[j].0 != entries[i].0
  }

  /** m holds exactly the ids of the entries, each with the key of its last entry. */
  ghost predicate HoldsLast<Vk, Proof>(s: Groth16<Vk, Proof>, entries: Entries, m: map<u32, Vk>) {
    && (forall id :: id in m <==> exists i :: 0 <= i < |entries| && entries[i].0 == id)
    && (forall i: nat :: LastUnderId(entries, i) ==>
        entries[i].0 in m && s.loadVk(entries[i].1) == Some(m[entries[i].0]))
  }

  ghost predicate AllLoad<Vk, Proof>(s: Groth16<Vk, Proof>, entries: Entries) {
    forall i :: 0 <= i < |entries| ==> s.loadVk(entries[i].1).Some?
  }

  /** A list loads exactly when all its entries parse, and then as the map that its last entries describe. */
  lemma {:induction false} LoadedMeaning<Vk, Proof>(s: Groth16<Vk, Proof>, entries: Entries)
    ensures Loaded(s, entries).Some? <==> AllLoad(s, entries)
    ensures Loaded(s, entries).Some? ==> HoldsLast(s, entries, Loaded(s, entries).value)
  {
    if entries != [] {
      var last := |entries| - 1;
      var front, id, bytes := entries[..last], entries[last].0, entries[last].1;
      LoadedMeaning(s, front);
      assert entries == front + [(id, bytes)];
      assert AllLoad(s, entries) <==> AllLoad(s, front) && s.loadVk(bytes).Some? by {
        if AllLoad(s, entries) {
          forall i | 0 <= i < last ensures s.loadVk(front[i].1).Some? { assert front[i] == entries[i]; }
        }
      }
      if Loaded(s, entries).Some? {
        LastAdded(s, front, id, bytes, Loaded(s, front).value);
      }
    }
  }

  lemma LastAdded<Vk, Proof>(s: Groth16<Vk, Proof>, front: Entries, id: u32, bytes: seq<byte>, m: map<u32, Vk>)
    requires HoldsLast(s, front, m) && s.loadVk(bytes).Some?
    ensures HoldsLast(s, front + [(id, bytes)], m[id := s.loadVk(bytes).value])
  {
    var entries, n := front + [(id, bytes)], m[id := s.loadVk(bytes).value];
    forall x ensures x in n <==> exists i :: 0 <= i < |entries| && entries[i].0 == x {
      if x in m {
        var i :| 0 <= i < |front| && front[i].0 == x;
        assert entries[i].0 == x;
      }
      if x == id { assert entries[|front|].0 == x; }
    }
    forall i: nat | LastUnderId(entries, i)
      ensures entries[i].0 in n && s.loadVk(entries[i].1) == Some(n[entries[i].0])
    {
      if i < |front| {
        assert entries[|front|].0 != entries[i].0 && front[i] == entries[i];
        assert LastUnderId(front, i) by {
          forall j | i < j < |front| ensures front[j].0 != front[i].0 { assert entries[j] == front[j]; }
        }
      }
    }
  }

  /** What one initialisation does to the cell that can be set once. */
  function Initialized<Vk, Proof>(s: Groth16<Vk, Proof>, cell: Option<map<u32, Vk>>, entries: Entries)
    : (Option<map<u32, Vk>>, Result<(), VerifyError>)
  {
    if entries == [] then (cell, Err(VerifyError.InvalidInput))
    else match Loaded(s, entries)
      case None => (cell, Err(VerifyError.InvalidFormat))
      case Some(m) => if cell.Some? then (cell, Err(AlreadyInitialized)) else (Some(m), Ok(()))
  }

  class VkRegistry<!Vk, !Proof> {
    var cell: Option<map<u32, Vk>>

    constructor ()
      ensures cell == None
    {
      cell := None;
    }

    method InitWithVkRegistry(s: Groth16<Vk, Proof>, entries: Entries) returns (r: Result<(), VerifyError>)
      modifies this
      ensures (cell, r) == Initialized(s, old(cell), entries)
      ensures r == Err(VerifyError.InvalidInput) <==> entries == []
      ensures r == Err(VerifyError.InvalidFormat) <==> entries != [] && !AllLoad(s, entries)
      ensures r == Err(AlreadyInitialized) <==> entries != [] && AllLoad(s, entries) && old(cell).Some?
      ensures r.Err? ==> cell == old(cell)
      ensures r.Ok? ==> cell.Some? && HoldsLast(s, entries, cell.value)
    {
      LoadedMeaning(s, entries);
      if |entries| == 0 {
        return Err(VerifyError.InvalidInput);
      }
      var m: map<u32, Vk> := map[];
      for i := 0 to |entries|
        invariant cell == old(cell) && Loaded(s, entries[..i]) == Some(m)
      {
        assert entries[..i + 1][..i] == entries[..i];
        var vk := s.loadVk(entries[i].1);
        if vk.None? {
          LoadedPrefix(s, entries, i + 1);
          return Err(VerifyError.InvalidFormat);
        }
        m := m[entries[i].0 := vk.value];
      }
      assert entries[..|entries|] == entries;
      if cell.Some? {
        return Err(AlreadyInitialized);
      }
      cell := Some(m);
      r := Ok(());
    }

    /** A single key, under id 0. */
    method InitWithVkBytes(s: Groth16<Vk, Proof>, bytes: seq<byte>) returns (r: Result<(), VerifyError>)
      modifies this
      ensures (cell, r) == Initialized(s, old(cell), [(0, bytes)])
    {
      var one: Entries := [(0, bytes)];
      assert one[..0] == [] && Loaded(s, []) == Some(map[]);
      var vk := s.loadVk(bytes);
      if vk.None? {
        return Err(VerifyError.InvalidFormat);
      }
      if cell.Some? {
        return Err(AlreadyInitialized);
      }
      cell := Some(map[0 := vk.value]);
      r := Ok(());
    }

    method VerifyAgeSnark(s: Groth16<Vk, Proof>, p: int, proofBytes: seq<byte>, pub: AgePublic, vkId: u32)
      returns (r: Result<(AgePublic, u32), VerifyError>)
      requires p > Pow2(CAPACITY)
      ensures r == Verdict(s, cell, proofBytes, pub, vkId)
      ensures r.Ok? <==> cell.Some? && vkId in cell.value && s.readProof(proofBytes).Some?
                         && s.verifyProof(cell.value[vkId], s.readProof(proofBytes).value, Elements(pub))
      ensures r.Ok? ==> r.value == (pub, vkId)
      ensures r == Err(VerifierNotInitialized) <==> cell.None? || vkId !in cell.value
      ensures r == Err(VerifyError.InvalidFormat) <==>
              cell.Some? && vkId in cell.value && s.readProof(proofBytes).None?
    {
      if cell.None? || vkId !in cell.value {
        return Err(VerifierNotInitialized);
      }
      var inputs := AssemblePublicInputsCanonical(p, pub);
      var proof := s.readProof(proofBytes);
      if proof.None? {
        return Err(VerifyError.InvalidFormat);
      }
      r := if s.verifyProof(cell.value[vkId], proof.value, inputs.value) then Ok((pub, vkId))
        else Err(VerificationFailed);
    }
  }

  /** One entry that does not parse spoils every list it starts. */
  lemma {:induction false} LoadedPrefix<Vk, Proof>(s: Groth16<Vk, Proof>, entries: Entries, n: nat)
    requires n <= |entries| && Loaded(s, entries[..n]).None?
    ensures Loaded(s, entries).None?
    decreases |entries|
  {
    if n < |entries| {
      var last := |entries| - 1;
      assert entries[..last][..n] == entries[..n];
      LoadedPrefix(s, entries[..last], n);
    } else {
      assert entries[..n] == entries;
    }
  }

  function Verdict<Vk, Proof>(s: Groth16<Vk, Proof>, cell: Option<map<u32, Vk>>, proofBytes: seq<byte>,
                              pub: AgePublic, vkId: u32): Result<(AgePublic, u32), VerifyError>
  {
    if cell.None? || vkId !in cell.value then Err(VerifierNotInitialized)
    else match s.readProof(proofBytes)
      case None => Err(VerifyError.InvalidFormat)
      case Some(proof) =>
        if s.verifyProof(cell.value[vkId], proof, Elements(pub)) then Ok((pub, vkId)) else Err(VerificationFailed)
  }

  // ---------------------------------------------------------------- runs

  /** The cell after a run of initialisations. */
  function After<Vk, Proof>(s: Groth16<Vk, Proof>, cell: Option<map<u32, Vk>>, calls: seq<Entries>)
    : Option<map<u32, Vk>>
    decreases |calls|
  {
    if calls == [] then cell else After(s, Initialized(s, cell, calls[0]).0, calls[1..])
  }

  /** The keys of the first call that loads, if any. */
  function FirstLoaded<Vk, Proof>(s: Groth16<Vk, Proof>, calls: seq<Entries>): Option<map<u32, Vk>> {
    if calls == [] then None
    else if calls[0] != [] && Loaded(s, calls[0]).Some? then Loaded(s, calls[0])
    else FirstLoaded(s, calls[1..])
  }

  /** Over every run the first call that loads decides the registry for good; the others change nothing. */
  lemma {:induction false} FirstInitialisationWins<Vk, Proof>(s: Groth16<Vk, Proof>, cell: Option<map<u32, Vk>>,
                                                              calls: seq<Entries>)
    ensures After(s, cell, calls) == if cell.Some? then cell else FirstLoaded(s, calls)
    decreases |calls|
  {
    if calls != [] {
      FirstInitialisationWins(s, Initialized(s, cell, calls[0]).0, calls[1..]);
    }
  }

  // ----------------------------------------------------------- end to end

  /**
   x extracts from proofs under vk. It may fail on any proof: nothing is said
   of accepted proofs for which no values are known.
   */
  ghost predicate ExtractsFrom<Vk(!new), Proof(!new)>(s: Groth16<Vk, Proof>, vk: Vk,
      x: (Proof, AgePublic) -> Option<Assignment>, p: int, k: Kit)
    requires p > 0 && KitReady(k)
  {
    forall proof: Proof, pub: AgePublic ::
      s.verifyProof(vk, proof, Elements(pub)) && x(proof, pub).Some? ==> Solves(p, k, pub, x(proof, pub).value)
  }

  /** calls[k] is the first call that loads. */
  ghost predicate FirstLoading<Vk, Proof>(s: Groth16<Vk, Proof>, calls: seq<Entries>, k: nat) {
    && k < |calls| && calls[k] != [] && AllLoad(s, calls[k])
    && forall j :: 0 <= j < k ==> calls[j] == [] || !AllLoad(s, calls[j])
  }

  lemma {:induction false} FirstLoadedIs<Vk, Proof>(s: Groth16<Vk, Proof>, calls: seq<Entries>) returns (k: nat)
    requires FirstLoaded(s, calls).Some?
    ensures FirstLoading(s, calls, k) && FirstLoaded(s, calls) == Loaded(s, calls[k])
  {
    hide Loaded;
    LoadedMeaning(s, calls[0]);
    if calls[0] != [] && Loaded(s, calls[0]).Some? {
      k := 0;
    } else {
      var j := FirstLoadedIs(s, calls[1..]);
      k := j + 1;
      forall i | 0 <= i < k ensures calls[i] == [] || !AllLoad(s, calls[i]) {
        if i > 0 { assert calls[1..][i - 1] == calls[i]; }
      }
    }
  }

  lemma LastOf(entries: Entries, id: u32, n: nat) returns (i: nat)
    requires n < |entries| && entries[n].0 == id
    ensures LastUnderId(entries, i) && entries[i].0 == id
    decreases |entries| - n
  {
    if j :| n < j < |entries| && entries[j].0 == id {
      i := LastOf(entries, id, j);
    } else {
      i := n;
    }
  }

  /** Values that an extractor for vk finds in the proof carry a witness of the statement. */
  ghost predicate CarriesWitness<Vk(!new), Proof(!new)>(s: Groth16<Vk, Proof>, vk: Vk, proof: Proof, pub: AgePublic,
      p: int, k: Kit, h: Hashes, spec: SigSpec, x: (Proof, AgePublic) -> Option<Assignment>)
    requires p > 0 && KitReady(k) && Setting(p, k, h, spec)
  {
    ExtractsFrom(s, vk, x, p, k) && x(proof, pub).Some? ==>
      Statement(h, spec, pub, Extract(x(proof, pub).value, k, LayoutAt(k, 0)))
  }

  /**
   A proof accepted after any run of initialisations was checked under the key
   of the last entry for vkId in the first of them to load, entry i of call k;
   and whatever an extractor for that key finds in the proof is a witness of
   the whole statement.
   */
  lemma AcceptedMeansStatement<Vk(!new), Proof(!new)>(s: Groth16<Vk, Proof>, calls: seq<Entries>,
      proofBytes: seq<byte>, pub: AgePublic, vkId: u32, p: int, k: Kit, h: Hashes, spec: SigSpec,
      x: (Proof, AgePublic) -> Option<Assignment>) returns (n: nat, i: nat)
    requires Setting(p, k, h, spec) && p > 0 && KitReady(k)
    requires Verdict(s, After(s, None, calls), proofBytes, pub, vkId).Ok?
    ensures FirstLoading(s, calls, n) && LastUnderId(calls[n], i) && calls[n][i].0 == vkId
    ensures s.loadVk(calls[n][i].1).Some? && s.readProof(proofBytes).Some?
    ensures var vk, proof := s.loadVk(calls[n][i].1).value, s.readProof(proofBytes).value;
      s.verifyProof(vk, proof, Elements(pub)) && CarriesWitness(s, vk, proof, pub, p, k, h, spec, x)
  {
    hide Setting, Statement, Elements, AgeCons, SatAll, InField, InputsAre, Loaded;
    FirstInitialisationWins(s, None, calls);
    n := FirstLoadedIs(s, calls);
    LoadedMeaning(s, calls[n]);
    var j :| 0 <= j < |calls[n]| && calls[n][j].0 == vkId;
    i := LastOf(calls[n], vkId, j);
    var proof, vk := s.readProof(proofBytes).value, s.loadVk(calls[n][i].1).value;
    var asg := x(proof, pub);
    if ExtractsFrom(s, vk, x, p, k) && asg.Some? {
      assert Solves(p, k, pub, asg.value);
      CircuitSound(p, asg.value, k, h, spec, 0, 0, pub);
    }
  }
}
