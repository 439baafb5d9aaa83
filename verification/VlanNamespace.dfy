/** Setting up the vnet namespace and its vlan link (network/transparent_vlan_endpointclient_linux.go).
    Every system call may fail: what the state of the host does not determine is a parameter of the
    call, which the set-up leaves to chance. */
module VlanNamespace {

  /** What the namespace's name stands for: nothing, a namespace of its own, the VM namespace under a
      second name, or no namespace at all: a name that a failed creation left behind. */
  datatype Ns = Absent | Separate | Alias | Broken

  datatype Place = Nowhere | InVm | InVnet

  /** The namespace the calling thread is in. */
  datatype Where = Vm | Vnet | Elsewhere

  datatype Added = Created | FileExists | Failed

  const NUM_RETRIES: nat := 5

  class Host {
    var ns: Ns
    var link: Place
    var here: Where
    const faultless: bool   // no system call fails that could succeed

    constructor (ns: Ns, link: Place, faultless: bool)
      ensures this.ns == ns && this.link == link && here == Vm && this.faultless == faultless
    {
      this.ns, this.link, here, this.faultless := ns, link, Vm, faultless;
    }

    /** The link lies in the vnet namespace only if there is one. */
    ghost predicate Possible()
      reads this
    {
      link == InVnet ==> ns == Separate
    }

    /** A namespace of its own with the link inside it and not in the VM. */
    ghost predicate Ready()
      reads this
    {
      ns == Separate && link == InVnet
    }

    /** The one leftover the clean-up does not see through: its in-namespace check looks into the VM. */
    ghost predicate Confusing()
      reads this
    {
      ns == Alias && link == InVm
    }

    // ----- system calls -----

    /** As the source assumes, this fails only if the name does not exist. */
    method GetFromName() returns (ok: bool)
      ensures ok <==> ns != Absent
    {
      ok := ns != Absent;
    }

    /** On success the thread is in the new namespace, which may turn out to be that of the VM; on failure
        it may be anywhere, and the name may have been made. */
    method NewNamed(works: bool, own: bool, made: bool) returns (ok: bool)
      modifies this`ns, this`here
      ensures ok == (old(ns) == Absent && (works || faultless))
      ensures ok ==> if own || faultless then ns == Separate && here == Vnet else ns == Alias && here == Vm
      ensures !ok ==> ns == if old(ns) == Absent && made then Broken else old(ns)
    {
      ok := ns == Absent && (works || faultless);
      if ok {
        ns, here := if own || faultless then Separate else Alias, if own || faultless then Vnet else Vm;
      } else {
        here := *;
        if ns == Absent && made { ns := Broken; }
      }
    }

    method SetVmNamespace(works: bool) returns (ok: bool)
      modifies this`here
      ensures ok == (works || faultless) && here == if ok then Vm else old(here)
    {
      ok := works || faultless;
      if ok { here := Vm; }
    }

    /** Takes the namespace off its name and then removes the name. A namespace of its own is destroyed
        with the link inside it. A failure leaves everything, or the name alone. */
    method DeleteNamed(works: bool, half: bool) returns (ok: bool)
      modifies this`ns, this`link
      ensures ok == (old(ns) != Absent && (works || (faultless && old(ns) != Broken)))
      ensures ns == if ok then Absent else if half && old(ns) != Absent then Broken else old(ns)
      ensures link == if ns != old(ns) && old(link) == InVnet then Nowhere else old(link)
    {
      ok := ns != Absent && (works || (faultless && ns != Broken));
      if ok || (half && ns != Absent && ns != Broken) {
        ns, link := if ok then Absent else Broken, if link == InVnet then Nowhere else link;
      }
    }

    /** Looking the vlan link up in the VM namespace; it may be missed. */
    method FindInVm(seen: bool) returns (ok: bool)
      requires here == Vm
      ensures ok == (link == InVm && (seen || faultless))
    {
      ok := link == InVm && (seen || faultless);
    }

    /** Entering the named namespace and looking the link up there; any part of it may fail. */
    method FindInNs(seen: bool) returns (ok: bool)
      ensures ok == ((seen || faultless) && ((ns == Separate && link == InVnet) || (ns == Alias && link == InVm)))
    {
      ok := (seen || faultless) && ((ns == Separate && link == InVnet) || (ns == Alias && link == InVm));
    }

    /** "file exists" is the answer exactly when there is such a link already. */
    method LinkAdd(works: bool) returns (r: Added)
      requires here == Vm
      modifies this`link
      ensures r == if old(link) != Nowhere then FileExists else if works || faultless then Created else Failed
      ensures link == if r == Created then InVm else old(link)
    {
      if link != Nowhere {
        return FileExists;
      }
      if !works && !faultless {
        return Failed;
      }
      link := InVm;
      return Created;
    }

    method DeleteLink(works: bool) returns (ok: bool)
      requires here == Vm
      modifies this`link
      ensures ok == (old(link) == InVm && (works || faultless))
      ensures link == if ok then Nowhere else old(link)
    {
      ok := link == InVm && (works || faultless);
      if ok { link := Nowhere; }
    }

    method SetLinkNetNs(works: bool) returns (ok: bool)
      requires here == Vm && ns == Separate
      modifies this`link
      ensures ok == (old(link) == InVm && (works || faultless))
      ensures link == if ok then InVnet else old(link)
    {
      ok := link == InVm && (works || faultless);
      if ok { link := InVnet; }
    }

    // ----- the set-up -----
    //
    // Clean-up calls take whether they work from the caller: `deletesNs` and `deletesLink` say that every
    // deletion of the namespace, or of the link, works that can; if not, each may work or not. `tidy` says
    // that a failed creation leaves no name behind, `sees` that a lookup does not overlook the link.

    /** ensureCleanPopulateVM. An intact set-up that the lookup in the namespace finds is left alone. */
    method EnsureClean(seesInNs: bool, sees: bool) returns (ok: bool)
      requires Possible() && here == Vm
      modifies this`ns, this`link
      ensures Possible()
      ensures ok && !old(Confusing()) ==> Ready() || (ns == Absent && link != InVnet)
      ensures !old(Confusing()) ==> !Confusing()
      ensures ok && (sees || faultless) ==> link != InVm
      ensures old(Ready()) && (seesInNs || faultless) ==> ok && Ready()
      ensures old(ns) == Absent ==> ns == Absent
      ensures faultless && old(ns) != Broken ==> ok
      ensures faultless && old(Confusing()) ==> ns == Alias && link == Nowhere
    {
      var known := GetFromName();
      if known {
        var found := FindInNs(seesInNs);
        if !found {
          var works, half := *, *;
          var deleted := DeleteNamed(works, half);
          if !deleted {
            return false;
          }
        }
      }
      var present := FindInVm(sees);
      if present {
        var works := *;
        ok := DeleteLink(works);
        return ok;
      }
      return true;
    }

    /** createNetworkNamespace. */
    method CreateNetworkNamespace(works: bool, own: bool, deletesNs: bool, tidy: bool) returns (ok: bool)
      requires Possible()
      modifies this`ns, this`here, this`link
      ensures ok <==> old(ns) == Absent && (faultless || (works && own))
      ensures ok ==> ns == Separate && here == Vnet
      ensures !ok ==> ns == old(ns) || (old(ns) == Absent && ns in {Alias, Broken})
      ensures !ok && deletesNs && tidy ==> ns == old(ns)
      ensures link == old(link) && Possible()
    {
      var left := *;
      var made := NewNamed(works, own, left && !tidy);
      if !made {
        return false;
      }
      if ns == Separate {
        return true;
      }
      var can, half := *, *;
      var _ := DeleteNamed(deletesNs || can, half);   // the new name stands for the VM namespace itself
      return false;
    }

    /** RunWithRetries around createNetworkNamespace: if failures leave nothing behind, one success in
        five is enough. */
    method CreateWithRetries(works: nat -> bool, own: nat -> bool, deletesNs: bool, tidy: bool) returns (ok: bool)
      requires Possible() && ns == Absent
      modifies this`ns, this`here, this`link
      ensures ok ==> ns == Separate && here == Vnet
      ensures !ok ==> ns in {Absent, Alias, Broken}
      ensures !ok && deletesNs && tidy ==> ns == Absent
      ensures deletesNs && tidy ==> (ok <==> faultless || exists i: nat :: i < 5 && works(i) && own(i))
      ensures link == old(link)
      ensures faultless ==> ok
    {
      ok := false;
      var i := 0;
      while i < NUM_RETRIES && !ok
        invariant 0 <= i <= NUM_RETRIES
        invariant !ok ==> ns in {Absent, Alias, Broken}
        invariant !ok && ((deletesNs && tidy) || i == 0) ==> ns == Absent
        invariant ok ==> ns == Separate && here == Vnet
        invariant link == old(link) && Possible()
        invariant faultless && i > 0 ==> ok
        invariant ok ==> i > 0 && (faultless || (works(i - 1) && own(i - 1)))
        invariant !ok && deletesNs && tidy ==> forall j: nat :: j < i ==> !(works(j) && own(j))
        decreases NUM_RETRIES - i
      {
        ok := CreateNetworkNamespace(works(i), own(i), deletesNs, tidy);
        i := i + 1;
      }
    }

    /** Five looks for the link in the VM. */
    method WaitForLink(seen: nat -> bool) returns (ok: bool)
      requires here == Vm
      ensures ok <==> link == InVm && (faultless || exists i: nat :: i < 5 && seen(i))
    {
      ok := false;
      var i := 0;
      while i < NUM_RETRIES && !ok
        invariant 0 <= i <= NUM_RETRIES
        invariant ok ==> link == InVm && i > 0 && (faultless || seen(i - 1))
        invariant !ok && link == InVm ==> (i > 0 ==> !faultless) && forall j: nat :: j < i ==> !seen(j)
      {
        ok := FindInVm(seen(i));
        i := i + 1;
      }
    }

    /** setLinkNetNSAndConfirm: the move, and five looks for the link in the namespace. */
    method MoveAndConfirm(moves: bool, seen: nat -> bool) returns (ok: bool)
      requires here == Vm && ns == Separate
      modifies this`link
      ensures link == if old(link) == InVm && (moves || faultless) then InVnet else old(link)
      ensures ok <==> old(link) == InVm && (faultless || (moves && exists i: nat :: i < 5 && seen(i)))
    {
      ok := SetLinkNetNs(moves);
      if !ok {
        return;
      }
      ok := false;
      var i := 0;
      while i < NUM_RETRIES && !ok
        invariant 0 <= i <= NUM_RETRIES
        invariant link == InVnet
        invariant ok ==> i > 0 && (faultless || seen(i - 1))
        invariant !ok ==> (i > 0 ==> !faultless) && forall j: nat :: j < i ==> !seen(j)
      {
        ok := FindInNs(seen(i));
        i := i + 1;
      }
    }

    /** From LinkAdd on. When it fails after the link was added, its deferred clean-up removes the link
        from the VM, wherever the failure was. */
    method AddAndMoveLink(deletesLink: bool) returns (ok: bool)
      requires here == Vm && ns == Separate && link != InVnet
      modifies this`link
      ensures ok ==> link == InVnet
      ensures !ok && deletesLink ==> link != InVm
      ensures faultless ==> ok
    {
      var adds := *;
      var added := LinkAdd(adds);
      if added == Failed {
        return false;
      }
      var seen: nat -> bool := *;
      ok := WaitForLink(seen);
      if ok {
        var works := *;   // DisableRAForInterface
        ok := works || faultless;
      }
      if ok {
        var moves, seenThere: nat -> bool := *, *;
        ok := MoveAndConfirm(moves, seenThere);
      }
      if !ok {
        var can := *;
        var _ := DeleteLink(deletesLink || can);
      }
    }

    /** The namespace part of PopulateVM, with the deferred deletion of the namespace at the end. If its
        creating branch fails at any point and the clean-up calls work, neither a namespace nor a new
        link is left. */
    method PopulateNamespace(deletesNs: bool, deletesLink: bool, tidy: bool) returns (ok: bool)
      requires here == Vm && Possible()
      modifies this`ns, this`here, this`link
      ensures Possible()
      ensures old(ns) != Absent ==> ns == old(ns) && link == old(link) && here == Vm
      ensures old(ns) == Absent && ok ==> Ready() && here == Vm
      ensures old(ns) == Absent && !ok && deletesNs && deletesLink && tidy ==>
                ns == Absent && (link == old(link) || link == Nowhere)
      ensures !ok && old(link) != InVm ==> !Confusing()
      ensures faultless ==> ok
    {
      var current := *;   // getting a handle of the VM namespace
      if !current && !faultless {
        return false;
      }
      var known := GetFromName();
      if known {
        return true;
      }
      var works, own: nat -> bool := *, *;
      ok := CreateWithRetries(works, own, deletesNs, tidy);
      if !ok {
        return false;
      }
      var back := *;
      ok := SetVmNamespace(back);
      if ok {
        var found := *;   // looking up the primary interface
        ok := found || faultless;
      }
      if ok {
        ok := AddAndMoveLink(deletesLink);
      }
      if !ok {
        var can, half := *, *;
        var _ := DeleteNamed(deletesNs || can, half);
      }
    }

    /** The namespace part of one AddEndpoints call, in a new process. Success means Ready from every
        leftover but the confusing one; from that one, even a run in which no call fails reports
        success without the link in place. */
    method Attempt(sees: bool) returns (ok: bool)
      requires Possible()
      modifies this`ns, this`here, this`link
      ensures Possible()
      ensures ok && !old(Confusing()) ==> Ready() && here == Vm
      ensures sees && !old(Confusing()) ==> !Confusing()
      ensures faultless && old(ns) != Broken ==> ok && (Ready() <==> !old(Confusing()))
    {
      here := Vm;
      var seesInNs := *;
      ok := EnsureClean(seesInNs, sees);
      if ok {
        var deletesNs, deletesLink, tidy := *, *, *;
        ok := PopulateNamespace(deletesNs, deletesLink, tidy);
      }
    }

    /** Up to |sees| attempts, each failing wherever it likes: when one succeeds, the namespace is there
        with the link inside it, whatever the earlier ones left behind, if no lookup in the VM before
        the last attempt overlooks the link. */
    method Attempts(sees: seq<bool>) returns (ok: bool)
      requires Possible()
      modifies this`ns, this`here, this`link
      ensures ok && !old(Confusing()) && (forall i :: 0 <= i < |sees| - 1 ==> sees[i]) ==> Ready()
      ensures faultless && old(ns) != Broken && sees != [] ==> ok
    {
      ok := false;
      for i := 0 to |sees|
        invariant Possible() && !ok
        invariant !old(Confusing()) && (forall j :: 0 <= j < i ==> sees[j]) ==> !Confusing()
        invariant faultless && old(ns) != Broken ==> i == 0 && ns == old(ns)
      {
        ok := Attempt(sees[i]);
        if ok {
          return;
        }
      }
    }
  }

  /** What an overlooked link leads to. The first attempt overlooks it and makes a name for the VM
      namespace that it cannot delete; in the second every call succeeds, and it reports success without
      a link. The calls are those of EnsureClean and PopulateNamespace, with these outcomes. */
  method OverlookedLink() returns (host: Host, first: bool, second: bool)
    ensures !first && second && host.ns == Alias && host.link == Nowhere
  {
    host := new Host(Absent, InVm, false);
    var known := host.GetFromName();
    var present := host.FindInVm(false);
    assert !known && !present;
    known := host.GetFromName();
    first := host.NewNamed(true, false, false);
    var deleted := host.DeleteNamed(false, false);
    assert !known && host.ns == Alias && !deleted;
    var i := 1;
    first := false;
    while i < NUM_RETRIES && !first
      invariant !first && host.ns == Alias && host.link == InVm
    {
      first := host.NewNamed(true, true, true);
      i := i + 1;
    }

    host.here := Vm;
    known := host.GetFromName();
    var found := host.FindInNs(true);
    present := host.FindInVm(true);
    deleted := host.DeleteLink(true);
    assert known && found && present && deleted;
    second := host.GetFromName();   // an existing namespace is taken to be complete
  }
}
