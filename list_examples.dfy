/**
 * The short-listing cases the repository's own tests exercise, stated
 * for every VM name, id and gap of the shapes those tests use.
 */
module ListExamples {
  import opened Results
  import opened PyText
  import opened Dicts
  import opened ListParser

  /** Empty output lists no VM. */
  lemma EmptyOutputListsNothing()
    ensures Vms("", false) == Ok(Short(map[]))
  {
    assert SplitLines("") == [];
  }

  /** A lone line break lists no VM: its one line is empty and skipped. */
  lemma LineBreakListsNothing()
    ensures Vms("\n", false) == Ok(Short(map[]))
  {
    SplitLinesFirst("", "");
    assert "" + "\n" + "" == "\n";
    assert Assigned(ShortItems([""])) == map[];
  }

  /** Two lines, each closed by a line break. */
  lemma SplitLinesTwo(l1: string, l2: string)
    requires '\n' !in l1 && '\n' !in l2 && l2 != ""
    ensures SplitLines(l1 + "\n" + l2 + "\n") == [l1, l2]
  {
    assert l1 + "\n" + l2 + "\n" == l1 + "\n" + (l2 + "\n" + "");
    SplitLinesFirst(l1, l2 + "\n" + "");
    SplitLinesFirst(l2, "");
  }

  /** Two assignments in a row, the second one last. */
  lemma AssignedTwo<K, V>(k1: K, v1: V, k2: K, v2: V)
    ensures Assigned([Some((k1, v1)), Some((k2, v2))]) == map[k1 := v1][k2 := v2]
  {
    AssignedOne(k1, v1);
    AssignedSnoc([Some((k1, v1))], Some((k2, v2)));
    assert [Some((k1, v1))] + [Some((k2, v2))] == [Some((k1, v1)), Some((k2, v2))];
  }

  /** A single assignment. */
  lemma AssignedOne<K, V>(k: K, v: V)
    ensures Assigned([Some((k, v))]) == map[k := v]
  {
    assert [Some((k, v))][..0] == [];
  }

  /** A VM line of the short listing has no line break in it. */
  lemma VmLineNoBreak(vm: VmEntry, gap: string)
    requires IsName(vm.name) && IsName(vm.id) && '\n' !in gap
    ensures '\n' !in VmLine(vm, gap) && VmLine(vm, gap) != ""
  {
    assert '\n' !in vm.name && '\n' !in vm.id;
  }

  /** Output whose one line matches lists that one VM. */
  lemma ShortVmsOne(output: string, l: string, vm: VmEntry)
    requires SplitLines(output) == [l]
    requires l != "" && SearchVm(Strip(l)) == Some(vm)
    ensures ShortVms(output) == Ok(map[vm.id := vm.name])
  {
    assert ShortLineOk(l);
    assert ShortItem(l) == Some((vm.id, vm.name));
    assert ShortItems([l]) == [Some((vm.id, vm.name))];
    AssignedOne(vm.id, vm.name);
  }

  /** One VM line and no final line break gives that one VM. */
  lemma OneVmLine(vm: VmEntry, gap: string)
    requires IsName(vm.name) && IsName(vm.id) && gap != "" && AllSpace(gap) && '\n' !in gap
    ensures Vms(VmLine(vm, gap), false) == Ok(Short(map[vm.id := vm.name]))
  {
    VmLineNoBreak(vm, gap);
    SplitLinesLast(VmLine(vm, gap));
    SearchVmLine(vm, gap);
    ShortVmsOne(VmLine(vm, gap), VmLine(vm, gap), vm);
  }

  /** Two matching lines are well formed and give their two entries. */
  lemma ShortItemsTwo(l1: string, vm1: VmEntry, l2: string, vm2: VmEntry)
    requires l1 != "" && SearchVm(Strip(l1)) == Some(vm1)
    requires l2 != "" && SearchVm(Strip(l2)) == Some(vm2)
    ensures ShortWellFormed([l1, l2])
    ensures ShortItems([l1, l2]) == [Some((vm1.id, vm1.name)), Some((vm2.id, vm2.name))]
  {
    assert ShortLineOk(l1) && ShortLineOk(l2);
    assert ShortItem(l1) == Some((vm1.id, vm1.name));
    assert ShortItem(l2) == Some((vm2.id, vm2.name));
  }

  /** Output of two matching lines lists both VMs, the second one last. */
  lemma ShortVmsTwo(output: string, l1: string, vm1: VmEntry, l2: string, vm2: VmEntry)
    requires SplitLines(output) == [l1, l2]
    requires l1 != "" && SearchVm(Strip(l1)) == Some(vm1)
    requires l2 != "" && SearchVm(Strip(l2)) == Some(vm2)
    ensures ShortVms(output) == Ok(map[vm1.id := vm1.name][vm2.id := vm2.name])
  {
    ShortItemsTwo(l1, vm1, l2, vm2);
    AssignedTwo(vm1.id, vm1.name, vm2.id, vm2.name);
  }

  /** Two VM lines, each closed by a line break, give both VMs. */
  lemma TwoVmLines(vm1: VmEntry, gap1: string, vm2: VmEntry, gap2: string)
    requires IsName(vm1.name) && IsName(vm1.id) && gap1 != "" && AllSpace(gap1) && '\n' !in gap1
    requires IsName(vm2.name) && IsName(vm2.id) && gap2 != "" && AllSpace(gap2) && '\n' !in gap2
    ensures Vms(VmLine(vm1, gap1) + "\n" + VmLine(vm2, gap2) + "\n", false)
         == Ok(Short(map[vm1.id := vm1.name][vm2.id := vm2.name]))
  {
    var l1 := VmLine(vm1, gap1);
    var l2 := VmLine(vm2, gap2);
    VmLineNoBreak(vm1, gap1);
    VmLineNoBreak(vm2, gap2);
    SplitLinesTwo(l1, l2);
    SearchVmLine(vm1, gap1);
    SearchVmLine(vm2, gap2);
    ShortVmsTwo(l1 + "\n" + l2 + "\n", l1, vm1, l2, vm2);
  }
}
