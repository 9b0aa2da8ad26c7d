/** Handles that are reissued: environment ids (kern/env.c) and the file
  server's file ids (fs/serv.c). Both are machine integers that carry their
  slot in the low bits and a generation above.
 */
module EnvIds {
  import opened Arithmetic

  const NENV: nat := 1024
  // 1 << ENVGENSHIFT
  const GENERATION: nat := 4096
  const INT_LIMIT: nat := 0x8000_0000
  const UINT_LIMIT: nat := 0x1_0000_0000
  // Generations 4096, 8192, ... below 2^31.
  const ENV_PERIOD: nat := 524287

  /** A sum of two ints as the machine stores it in an int32_t. */
  function ToInt32(x: int): int {
    if x >= INT_LIMIT then x - UINT_LIMIT else x
  }

  /** ENVX: the low ten bits, also of a negative id. */
  function EnvX(id: int): nat {
    id % NENV
  }

  /** The id env_alloc gives slot `slot` when the last one was `id`. */
  function NextEnvId(id: int, slot: nat): int
    requires slot < NENV
  {
    var sum := ToInt32(id + GENERATION);
    var generation := sum - sum % NENV;
    (if generation <= 0 then GENERATION else generation) + slot
  }

  /** The id of the k-th environment allocated in a slot, from id 0 on. */
  function EnvIdAfter(k: nat, slot: nat): int
    requires slot < NENV
  {
    if k == 0 then 0 else NextEnvId(EnvIdAfter(k - 1, slot), slot)
  }

  /** One allocation: the generation goes up by one, and after the last one
      that fits a positive int it starts again at the first. */
  lemma NextEnvIdStep(g: nat, slot: nat)
    requires slot < NENV && 1 <= g <= ENV_PERIOD
    ensures NextEnvId(g * GENERATION + slot, slot) ==
              (if g == ENV_PERIOD then 1 else g + 1) * GENERATION + slot
  {
    var id := g * GENERATION + slot;
    SlotOf(4 * g + 4, slot);
    if g < ENV_PERIOD {
      assert id + GENERATION < INT_LIMIT;
    }
  }

  lemma SlotOf(q: nat, slot: nat)
    requires slot < NENV
    ensures (q * NENV + slot) % NENV == slot
  {
    ModOfSum(q, slot, NENV);
  }

  /** Closed form of the k-th id: generations cycle through 1..524287. */
  lemma {:induction false} EnvIdForm(k: nat, slot: nat)
    requires slot < NENV && 0 < k
    ensures EnvIdAfter(k, slot) == ((k - 1) % ENV_PERIOD + 1) * GENERATION + slot
  {
    hide NextEnvId;
    if k == 1 {
      FirstEnvId(slot);
    } else {
      var g := (k - 2) % ENV_PERIOD + 1;
      EnvIdForm(k - 1, slot);
      NextEnvIdStep(g, slot);
      ModSucc(k - 2, ENV_PERIOD);
      assert (k - 1) % ENV_PERIOD + 1 == if g == ENV_PERIOD then 1 else g + 1;
    }
  }

  lemma FirstEnvId(slot: nat)
    requires slot < NENV
    ensures EnvIdAfter(1, slot) == GENERATION + slot
  {
    assert EnvIdAfter(0, slot) == 0;
  }

  /** Environment ids stay positive and carry their slot. */
  lemma EnvIdCarriesSlot(k: nat, slot: nat)
    requires slot < NENV && 0 < k
    ensures 0 < EnvIdAfter(k, slot) < INT_LIMIT && EnvX(EnvIdAfter(k, slot)) == slot
  {
    EnvIdForm(k, slot);
    SlotOf(4 * ((k - 1) % ENV_PERIOD + 1), slot);
  }

  /** A slot reissues an id after exactly a multiple of 524287 allocations. */
  lemma EnvIdRecurs(j: nat, k: nat, slot: nat)
    requires slot < NENV && 0 < j <= k
    ensures EnvIdAfter(j, slot) == EnvIdAfter(k, slot) <==> (k - j) % ENV_PERIOD == 0
  {
    EnvIdForm(j, slot);
    EnvIdForm(k, slot);
    var a, b := (j - 1) % ENV_PERIOD, (k - 1) % ENV_PERIOD;
    assert (a + 1) * GENERATION + slot == (b + 1) * GENERATION + slot <==> a == b;
    ModDifference(j - 1, k - 1, ENV_PERIOD);
  }

  // ------------------------------------------------------------------
  // File ids
  // ------------------------------------------------------------------

  const MAXOPEN: nat := 1024
  const FILE_PERIOD: nat := 0x40_0000   // 2^22

  /** A uint32_t sum. */
  function ToUint32(x: nat): nat {
    if x >= UINT_LIMIT then x - UINT_LIMIT else x
  }

  /** o_fileid of a slot after k opens. */
  function FileIdAfter(k: nat, slot: nat): (id: nat)
    requires slot < MAXOPEN
    ensures id < UINT_LIMIT
  {
    if k == 0 then slot else ToUint32(FileIdAfter(k - 1, slot) + MAXOPEN)
  }

  /** File ids stay congruent to their slot modulo 1024. */
  lemma {:induction false} FileIdForm(k: nat, slot: nat)
    requires slot < MAXOPEN
    ensures FileIdAfter(k, slot) == (k % FILE_PERIOD) * MAXOPEN + slot
    ensures FileIdAfter(k, slot) % MAXOPEN == slot
  {
    if k > 0 {
      FileIdForm(k - 1, slot);
      ModSucc(k - 1, FILE_PERIOD);
    }
    ModOfSum(k % FILE_PERIOD, slot, MAXOPEN);
  }

  /** A file id recurs after exactly a multiple of 2^22 opens of its slot. */
  lemma FileIdRecurs(j: nat, k: nat, slot: nat)
    requires slot < MAXOPEN && j <= k
    ensures FileIdAfter(j, slot) == FileIdAfter(k, slot) <==> (k - j) % FILE_PERIOD == 0
  {
    FileIdForm(j, slot);
    FileIdForm(k, slot);
    ModDifference(j, k, FILE_PERIOD);
  }

  /** openfile_alloc hands the id back as an int, so it reads as an error
      from the 2^21-th open of a slot on, and until the id wraps. */
  lemma FileIdReadsAsError(k: nat, slot: nat)
    requires slot < MAXOPEN
    ensures ToInt32(FileIdAfter(k, slot)) < 0 <==> k % FILE_PERIOD >= FILE_PERIOD / 2
  {
    FileIdForm(k, slot);
  }

  /** The server's table of open files. `refs` is pageref(o_fd): 0 when the
      Fd page is not there, 1 when only the server maps it. */
  class OpenTable {
    const fileid: array<nat>
    const refs: array<nat>
    ghost var opens: seq<nat>

    ghost predicate Valid()
      reads this, fileid, refs
    {
      && fileid.Length == MAXOPEN && refs.Length == MAXOPEN && fileid != refs && |opens| == MAXOPEN
      && (forall i: nat | i < MAXOPEN :: fileid[i] == FileIdAfter(opens[i], i))
    }

    /** serve_init */
    constructor ()
      ensures Valid() && fresh(fileid) && fresh(refs)
      ensures forall i: nat | i < MAXOPEN :: opens[i] == 0 && refs[i] == 0
    {
      fileid := new nat[MAXOPEN](i => i);
      refs := new nat[MAXOPEN](_ => 0);
      opens := seq(MAXOPEN, _ => 0);
    }

    /** openfile_alloc: the first slot no client holds. `pageOk` says whether
        sys_page_alloc finds a page. -1 stands for every error return. */
    method OpenfileAlloc(pageOk: bool) returns (slot: int, id: int)
      requires Valid()
      modifies this`opens, fileid, refs
      ensures Valid()
      ensures slot == -1 ==> opens == old(opens) && id == -1 && refs[..] == old(refs[..])
      ensures slot == -1 <==> (forall i | 0 <= i < MAXOPEN :: old(refs[i]) > 1)
                              || (!pageOk && exists i :: FirstUnheld(old(refs[..]), i) && old(refs[i]) == 0)
      ensures slot != -1 ==> FirstUnheld(old(refs[..]), slot) && opens == old(opens)[slot := old(opens)[slot] + 1]
                             && id == ToInt32(fileid[slot]) && refs[..] == old(refs[..])[slot := 1]
    {
      for i := 0 to MAXOPEN
        invariant forall j | 0 <= j < i :: refs[j] > 1
        invariant Valid() && refs[..] == old(refs[..]) && opens == old(opens)
      {
        if refs[i] <= 1 {
          assert FirstUnheld(old(refs[..]), i);
          if refs[i] == 0 {
            if !pageOk {
              return -1, -1;
            }
            refs[i] := 1;
          }
          fileid[i] := ToUint32(fileid[i] + MAXOPEN);
          opens := opens[i := opens[i] + 1];
          return i, ToInt32(fileid[i]);
        }
      }
      return -1, -1;
    }

    /** openfile_lookup: the slot of a live handle, or -1 for -E_INVAL. */
    method OpenfileLookup(id: nat) returns (slot: int)
      requires Valid() && id < UINT_LIMIT
      ensures slot == if refs[id % MAXOPEN] > 1 && fileid[id % MAXOPEN] == id then id % MAXOPEN else -1
      ensures forall i: nat, j: nat | i < MAXOPEN && id == FileIdAfter(j, i) && j < opens[i] < j + FILE_PERIOD ::
                slot == -1
    {
      var i := id % MAXOPEN;
      forall s: nat, j: nat | s < MAXOPEN && id == FileIdAfter(j, s) && j < opens[s] < j + FILE_PERIOD
        ensures s == i && fileid[i] != id
      {
        StaleFileId(j, opens[s], s);
      }
      if refs[i] <= 1 || fileid[i] != id {
        return -1;
      }
      slot := i;
    }
  }

  ghost predicate FirstUnheld(refs: seq<nat>, i: int) {
    0 <= i < |refs| && refs[i] <= 1 && forall j | 0 <= j < i :: refs[j] > 1
  }

  /** Within one period a file id whose slot was opened again names its slot
      but is not the slot's current id. */
  lemma StaleFileId(j: nat, k: nat, slot: nat)
    requires slot < MAXOPEN && j < k < j + FILE_PERIOD
    ensures FileIdAfter(j, slot) % MAXOPEN == slot && FileIdAfter(j, slot) != FileIdAfter(k, slot)
  {
    FileIdForm(j, slot);
    FileIdRecurs(j, k, slot);
  }
}
