/** The header list as avmf.c holds it: a static array of linked nodes and a one-entry cache. */
module HeaderList {
  import opened Words
  import opened Regions

  /** An avmf_header_t. */
  class HeaderNode {
    ghost const position: nat   // the node is static_headers[position]
    var virt: nat
    var phys: nat
    var size: nat
    var flags: nat
    var next: HeaderNode?

    constructor (ghost position: nat)
      ensures this.position == position
    {
      this.position := position;
      virt, phys, size, flags, next := 0, 0, 0, 0, null;
    }

    method Fill(virt: nat, phys: nat, size: nat, flags: nat)
      modifies this
      ensures Value() == Header(virt, phys, size, flags) && next == null
    {
      this.virt, this.phys, this.size, this.flags, this.next := virt, phys, size, flags, null;
    }

    function Value(): Header
      reads this
    {
      Header(virt, phys, size, flags)
    }
  }

  class RegionList {
    const nodes: seq<HeaderNode>
    var headerIndex: nat
    var head: HeaderNode?
    var lastFound: HeaderNode?
    ghost var cached: Option<nat>

    ghost predicate Valid()
      reads this, nodes
    {
      && |nodes| == STATIC_HEADERS
      && (forall i :: 0 <= i < |nodes| ==> nodes[i].position == i)
      && headerIndex <= |nodes|
      && head == NodeOrNull(0)
      && (forall i :: 0 <= i < headerIndex ==> nodes[i].next == NodeOrNull(i + 1))
      && (if cached.Some? then cached.value < headerIndex && lastFound == nodes[cached.value]
          else lastFound == null)
    }

    ghost function NodeOrNull(i: nat): HeaderNode?
      requires headerIndex <= |nodes|
      reads this
    {
      if i < headerIndex then nodes[i] else null
    }

    ghost function Contents(): Table
      requires headerIndex <= |nodes|
      reads this, nodes
    {
      Table(seq(headerIndex, i requires 0 <= i < headerIndex <= |nodes| reads this, nodes => nodes[i].Value()), cached)
    }

    constructor ()
      ensures Valid() && fresh(nodes) && Contents() == Table([], None)
    {
      var made: seq<HeaderNode> := [];
      while |made| < STATIC_HEADERS
        invariant |made| <= STATIC_HEADERS && fresh(made)
        invariant forall i :: 0 <= i < |made| ==> made[i].position == i
      {
        var node := new HeaderNode(|made|);
        made := made + [node];
      }
      nodes := made;
      headerIndex, head, lastFound, cached := 0, null, null, None;
    }

    /** The linear scan. */
    method FindInList(a: nat) returns (found: HeaderNode?, ghost k: Option<nat>)
      requires Valid()
      ensures k == Scan(Contents().headers, 0, a)
      ensures var scan := Scan(Contents().headers, 0, a);
              if scan.Some? then found == nodes[scan.value] else found == null
    {
      ghost var headers := Contents().headers;
      found := head;
      ghost var i := 0;
      while found != null
        invariant i <= headerIndex && found == NodeOrNull(i)
        invariant Scan(headers, 0, a) == Scan(headers, i, a)
        decreases headerIndex - i
      {
        assert headers[i] == found.Value();
        if found.Value().Covers(a) {
          return found, Some(i);
        }
        found := found.next;
        i := i + 1;
      }
      return null, None;
    }

    /** avmf_find: the node last found first, then the list. */
    method Find(a: nat) returns (found: HeaderNode?, ghost k: Option<nat>)
      requires Valid()
      modifies `lastFound, `cached
      ensures Valid() && (Contents(), k) == Regions.Find(old(Contents()), a)
      ensures if k.Some? then found == nodes[k.value] else found == null
    {
      ghost var t := Contents();
      if lastFound != null && lastFound.Value().Covers(a) {
        assert t.headers[cached.value] == lastFound.Value();
        return lastFound, cached;
      }
      found, k := FindInList(a);
      if found != null {
        lastFound := found;
        cached := k;
        assert Contents().headers == t.headers;
      }
    }

    /** The last node of the list, by following next from the head. */
    method Tail() returns (last: HeaderNode?)
      requires Valid()
      ensures if headerIndex == 0 then last == null else last == nodes[headerIndex - 1]
    {
      last := null;
      if head != null {
        last := head;
        ghost var i := 0;
        while last.next != null
          invariant i < headerIndex && last == nodes[i]
          decreases headerIndex - i
        {
          last := last.next;
          i := i + 1;
        }
      }
    }

    /** Puts static_headers[header_index] at the end of the list. */
    method Append(virt: nat, phys: nat, size: nat, flags: nat, last: HeaderNode?)
      requires Valid() && headerIndex < STATIC_HEADERS
      requires if headerIndex == 0 then last == null else last == nodes[headerIndex - 1]
      modifies `headerIndex, `head, nodes
      ensures Valid() && headerIndex == old(headerIndex) + 1
      ensures nodes[headerIndex - 1].Value() == Header(virt, phys, size, flags)
      ensures forall i :: 0 <= i < headerIndex - 1 ==> nodes[i].Value() == old(nodes[i].Value())
    {
      var node := nodes[headerIndex];
      headerIndex := headerIndex + 1;
      node.Fill(virt, phys, size, flags);
      if head == null {
        head := node;
      } else {
        last.next := node;
      }
    }

    method AllocRegion(virt: nat, phys: nat, size: nat, flags: nat) returns (ok: bool)
      requires Valid()
      modifies `headerIndex, `head, nodes
      ensures Valid() && (Contents(), ok) == AddRegion(old(Contents()), virt, phys, size, flags)
    {
      var aligned := Align4k(size);
      ghost var headers := Contents().headers;
      var last := Tail();
      if headerIndex >= STATIC_HEADERS {
        return false;
      }
      Append(virt, phys, aligned, flags, last);
      assert Contents().headers == headers + [Header(virt, phys, aligned, flags)];
      return true;
    }

    method VirtToPhys(virt: nat) returns (phys: nat)
      requires Valid()
      modifies `lastFound, `cached
      ensures Valid() && (Contents(), phys) == Regions.VirtToPhys(old(Contents()), virt)
      ensures 0xFFFF_8000_0000_0000 <= virt < 0xFFFF_A000_0000_0000 ==> phys == virt - 0xFFFF_8000_0000_0000
    {
      if DIRECT_MAP_BASE <= virt < KERNEL_SPACE_BASE {
        return virt - DIRECT_MAP_BASE;
      }
      ghost var t := Contents();
      var region, k := Find(virt);
      if region == null {
        return 0;
      }
      assert t.headers[k.value] == region.Value();
      phys := (region.phys + (virt - region.virt)) % TWO64;
    }

    method PhysToVirt(p: nat) returns (virt: nat)
      requires Valid()
      ensures virt == Regions.PhysToVirt(Contents().headers, p)
    {
      ghost var t := Contents();
      var cur := head;
      ghost var i := 0;
      while cur != null
        invariant i <= headerIndex && cur == NodeOrNull(i)
        invariant ScanPhys(t.headers, 0, p) == ScanPhys(t.headers, i, p)
        decreases headerIndex - i
      {
        assert t.headers[i] == cur.Value();
        if cur.Value().CoversPhys(p) {
          return (cur.virt + (p - cur.phys)) % TWO64;
        }
        cur := cur.next;
        i := i + 1;
      }
      return 0;
    }
  }
}
