/** The block that child_ptr of a node points into. */
module MbBlocks {
  // The rules lie before that place, the first one next to it, and the children from it on.

  import opened Seqs

  /** An entry of a block: a word for a rule, or a child. */
  datatype Item<N> = Rule(hop: nat) | Child(node: N) | Unused

  /** UP_RULE: the number of nodes that n rules take, three rules to a node. */
  function UpRule(n: nat): (r: nat)
    ensures 3 * r >= n
  {
    (n * 8 + 24 - 1) / 24
  }

  predicate IsRule<N>(block: seq<Item<N>>, base: nat, k: nat) {
    k < base <= |block| && block[base - 1 - k].Rule?
  }

  predicate IsChild<N>(block: seq<Item<N>>, base: nat, k: nat) {
    base + k < |block| && block[base + k].Child?
  }

  /** The rule k places before base. */
  function RuleOf<N>(block: seq<Item<N>>, base: nat, k: nat): nat
    requires IsRule(block, base, k)
  {
    block[base - 1 - k].hop
  }

  function ChildOf<N>(block: seq<Item<N>>, base: nat, k: nat): N
    requires IsChild(block, base, k)
  {
    block[base + k].node
  }

  predicate HasRules<N>(block: seq<Item<N>>, base: nat, n: nat) {
    forall k :: 0 <= k < n ==> IsRule(block, base, k)
  }

  predicate HasChildren<N>(block: seq<Item<N>>, base: nat, n: nat) {
    forall k :: 0 <= k < n ==> IsChild(block, base, k)
  }

  /** The n rules before base, if they are there. */
  function RulesIn<N>(block: seq<Item<N>>, base: nat, n: nat): seq<nat> {
    if HasRules(block, base, n) then seq(n, (k: nat) requires k < n => RuleOf(block, base, k)) else []
  }

  /** The n children from base on, if they are there. */
  function ChildrenIn<N>(block: seq<Item<N>>, base: nat, n: nat): seq<N> {
    if HasChildren(block, base, n) then seq(n, (k: nat) requires k < n => ChildOf(block, base, k)) else []
  }

  lemma {:induction false} RuleIn<N>(block: seq<Item<N>>, base: nat, n: nat, k: nat)
    requires k < |RulesIn(block, base, n)|
    ensures IsRule(block, base, k) && RulesIn(block, base, n)[k] == RuleOf(block, base, k)
  {
  }

  lemma {:induction false} ChildIn<N>(block: seq<Item<N>>, base: nat, n: nat, k: nat)
    requires k < |ChildrenIn(block, base, n)|
    ensures IsChild(block, base, k) && ChildrenIn(block, base, n)[k] == ChildOf(block, base, k)
  {
  }

  /** The block holds these rules and children. */
  ghost predicate Holds<N>(block: seq<Item<N>>, base: nat, rules: seq<nat>, children: seq<N>) {
    && (rules != [] ==> |rules| <= base <= |block|)
    && (children != [] ==> base + |children| <= |block|)
    && (forall k :: 0 <= k < |rules| ==> block[base - 1 - k] == Rule(rules[k]))
    && (forall k :: 0 <= k < |children| ==> block[base + k] == Child(children[k]))
  }

  lemma {:induction false} HoldsIn<N>(block: seq<Item<N>>, base: nat, r: nat, c: nat)
    requires |RulesIn(block, base, r)| == r && |ChildrenIn(block, base, c)| == c
    ensures Holds(block, base, RulesIn(block, base, r), ChildrenIn(block, base, c))
  {
    var rules, children := RulesIn(block, base, r), ChildrenIn(block, base, c);
    forall k | 0 <= k < r ensures IsRule(block, base, k)
        && block[base - 1 - k] == Rule(rules[k]) { RuleIn(block, base, r, k); }
    forall k | 0 <= k < c ensures IsChild(block, base, k)
        && block[base + k] == Child(children[k]) { ChildIn(block, base, c, k); }
    if r > 0 { RuleIn(block, base, r, r - 1); }
    if c > 0 { ChildIn(block, base, c, c - 1); }
  }

  lemma {:induction false} InHolds<N>(block: seq<Item<N>>, base: nat, rules: seq<nat>, children: seq<N>)
    requires Holds(block, base, rules, children)
    ensures RulesIn(block, base, |rules|) == rules && ChildrenIn(block, base, |children|) == children
  {
    forall k | 0 <= k < |rules| ensures IsRule(block, base, k) && RuleOf(block, base, k) == rules[k] {
      assert block[base - 1 - k] == Rule(rules[k]);
    }
    forall k | 0 <= k < |children| ensures IsChild(block, base, k) && ChildOf(block, base, k) == children[k] {
      assert block[base + k] == Child(children[k]);
    }
    assert HasRules(block, base, |rules|) && HasChildren(block, base, |children|);
  }

  // ---------- copying ----------

  /** memcpy of n entries. */
  method Copy<N>(dst: array<Item<N>>, j: nat, src: seq<Item<N>>, i: nat, n: nat)
    requires j + n <= dst.Length && i + n <= |src|
    modifies dst
    ensures forall k :: 0 <= k < dst.Length ==> dst[k] == if j <= k < j + n then src[i + k - j] else old(dst[k])
  {
    for c := 0 to n
      invariant forall k :: 0 <= k < dst.Length ==> dst[k] == if j <= k < j + c then src[i + k - j] else old(dst[k])
    {
      dst[j + c] := src[i + c];
    }
  }

  /** new_node: a block for some children and rules, and the place in it where the rules end. */
  method NewNode<N>(mb_cnt: nat, result_cnt: nat) returns (n: array<Item<N>>, r_c: nat)
    ensures fresh(n) && r_c == 3 * UpRule(result_cnt) && n.Length == r_c + mb_cnt
  {
    r_c := 3 * UpRule(result_cnt);
    n := new Item<N>[r_c + mb_cnt](_ => Unused);
  }

  /** extend_rule: the block with nhi as rule number pos, counted from 1. */
  method InsertRule<N>(child_ptr: seq<Item<N>>, base: nat, child_num: nat, rule_num: nat, pos: nat, nhi: nat,
                       ghost rules: seq<nat>, ghost children: seq<N>)
    returns (block: seq<Item<N>>, base': nat)
    requires Holds(child_ptr, base, rules, children) && rule_num == |rules| && child_num == |children|
        && 1 <= pos <= rule_num + 1
    ensures Holds(block, base', InsertAt(rules, pos - 1, nhi), children)
  {
    var n;
    n, base' := NewNode(child_num, rule_num + 1);
    if child_num != 0 {
      Copy(n, base', child_ptr, base, child_num);
    }
    if rule_num != 0 {
      Copy(n, base' - pos + 1, child_ptr, base - pos + 1, pos - 1);
      Copy(n, base' - rule_num - 1, child_ptr, base - rule_num, rule_num - pos + 1);
    }
    n[base' - pos] := Rule(nhi);
    block := n[..];
  }

  /** reduce_rule: the block without rule number pos, counted from 1. */
  method RemoveRule<N>(child_ptr: seq<Item<N>>, base: nat, child_num: nat, rule_num: nat, pos: nat,
                       ghost rules: seq<nat>, ghost children: seq<N>)
    returns (block: seq<Item<N>>, base': nat)
    requires Holds(child_ptr, base, rules, children) && rule_num == |rules| && child_num == |children|
        && 1 <= pos <= rule_num
    ensures Holds(block, base', RemoveAt(rules, pos - 1), children)
  {
    var n;
    n, base' := NewNode(child_num, rule_num - 1);
    if child_num != 0 {
      Copy(n, base', child_ptr, base, child_num);
    }
    if rule_num > 1 {
      Copy(n, base' - pos + 1, child_ptr, base - pos + 1, pos - 1);
      Copy(n, base' - rule_num + 1, child_ptr, base - rule_num, rule_num - pos);
    }
    block := n[..];
  }

  /** extend_child: the block with child as child number pos, counted from 0. */
  method InsertChild<N>(child_ptr: seq<Item<N>>, base: nat, child_num: nat, rule_num: nat, pos: nat, child: N,
                        ghost rules: seq<nat>, ghost children: seq<N>)
    returns (block: seq<Item<N>>, base': nat)
    requires Holds(child_ptr, base, rules, children) && rule_num == |rules| && child_num == |children|
        && pos <= child_num
    ensures Holds(block, base', rules, InsertAt(children, pos, child))
  {
    var n;
    n, base' := NewNode(child_num + 1, rule_num);
    if rule_num != 0 {
      Copy(n, base' - rule_num, child_ptr, base - rule_num, rule_num);
    }
    if child_num != 0 {
      Copy(n, base', child_ptr, base, pos);
      Copy(n, base' + pos + 1, child_ptr, base + pos, child_num - pos);
    }
    n[base' + pos] := Child(child);
    block := n[..];
  }

  /** reduce_child: the block without child number pos, counted from 0. */
  method RemoveChild<N>(child_ptr: seq<Item<N>>, base: nat, child_num: nat, rule_num: nat, pos: nat,
                        ghost rules: seq<nat>, ghost children: seq<N>)
    returns (block: seq<Item<N>>, base': nat)
    requires Holds(child_ptr, base, rules, children) && rule_num == |rules| && child_num == |children|
        && pos < child_num
    ensures Holds(block, base', rules, RemoveAt(children, pos))
  {
    var n;
    n, base' := NewNode(child_num - 1, rule_num);
    if rule_num != 0 {
      Copy(n, base' - rule_num, child_ptr, base - rule_num, rule_num);
    }
    if child_num > 1 {
      Copy(n, base', child_ptr, base, pos);
      Copy(n, base' + pos, child_ptr, base + pos + 1, child_num - pos - 1);
    }
    block := n[..];
  }
}
