/** Node identifiers: a process id in the upper half, a counter in the lower one. */
module NodeIds {
  import opened Bytes

  type NodeId = u64
  type Pid = u32

  const BIT_30: int := 0x4000_0000
  const BIT_62: int := 0x4000_0000_0000_0000

  function ExtractPid(id: NodeId): Pid {
    id / TWO_32
  }

  function ExtractNodeId(id: NodeId): u32 {
    id % TWO_32
  }

  function ComposeNodeId(pid: Pid, nodeId: u32): NodeId {
    pid * TWO_32 + nodeId
  }

  /** `pid | 1 << 30`. */
  function GetMockPid(pid: Pid): Pid {
    if pid / BIT_30 % 2 == 1 then pid else pid + BIT_30
  }

  /** `id & 1 << 62`. */
  predicate IsNodeIdPatched(id: NodeId) {
    id / BIT_62 % 2 == 1
  }

  /** `id | 1 << 62`. */
  function PatchNodeId(id: NodeId): NodeId {
    if IsNodeIdPatched(id) then id else id + BIT_62
  }

  /** The patch bit lies in the process half: patching an id is composing it anew from the mock
      process id and the same counter. */
  lemma PatchIsMockPid(id: NodeId)
    ensures ExtractPid(PatchNodeId(id)) == GetMockPid(ExtractPid(id))
    ensures ExtractNodeId(PatchNodeId(id)) == ExtractNodeId(id)
    ensures PatchNodeId(id) == ComposeNodeId(GetMockPid(ExtractPid(id)), ExtractNodeId(id))
    ensures IsNodeIdPatched(PatchNodeId(id)) && PatchNodeId(PatchNodeId(id)) == PatchNodeId(id)
  {
    assert id == id / TWO_32 * TWO_32 + id % TWO_32;
    assert id / BIT_62 == id / TWO_32 / BIT_30;
  }

  /** The process id alone tells whether an id is patched. */
  lemma PatchedByPid(id: NodeId)
    ensures IsNodeIdPatched(id) <==> GetMockPid(ExtractPid(id)) == ExtractPid(id)
  {
    assert id / BIT_62 == id / TWO_32 / BIT_30;
  }

  /** Two different ids meet under patching exactly when they differ in the patch bit alone, so
      unpatched ones never do. */
  lemma PatchMeets(a: NodeId, b: NodeId)
    requires a < b
    ensures PatchNodeId(a) == PatchNodeId(b) <==> b - a == BIT_62 && IsNodeIdPatched(b)
    ensures !IsNodeIdPatched(a) && !IsNodeIdPatched(b) ==> PatchNodeId(a) != PatchNodeId(b)
  {
  }
}
