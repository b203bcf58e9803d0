/// Page-table entry permissions, including the kernel's copy-on-write (CoW)
/// marker, and the transitions between writable and CoW mappings.
module Permissions {

  /// The permissions of a user mapping (a VMA): read, write, execute.
  datatype VmaPermissions = VmaPermissions(read: bool, write: bool, execute: bool)

  datatype PtePermissions = PtePermissions(read: bool, write: bool, execute: bool, user: bool, cow: bool)

  /// The invariant every constructor and transition keeps: a mapping is never
  /// both writable and CoW.
  predicate Consistent(p: PtePermissions)
  {
    !(p.write && p.cow)
  }

  /// `From<VMAPermissions>`: a VMA describes user memory and is never CoW
  /// until it is cloned.
  function FromVma(v: VmaPermissions): (p: PtePermissions)
    ensures Consistent(p) && p.user && !p.cow
    ensures (p.read, p.write, p.execute) == (v.read, v.write, v.execute)
  {
    PtePermissions(v.read, v.write, v.execute, true, false)
  }

  /// `from_raw_bits`, used when decoding a descriptor; its debug assertion
  /// demands the invariant.
  function FromRawBits(read: bool, write: bool, execute: bool, user: bool, cow: bool): (p: PtePermissions)
    requires !(write && cow)
    ensures Consistent(p)
    ensures p.read == read && p.write == write && p.execute == execute
    ensures p.user == user && p.cow == cow
  {
    PtePermissions(read, write, execute, user, cow)
  }

  /// The four named constructors: readable, never CoW, with the named write
  /// and execute bits and the given user flag.
  function Ro(user: bool): (p: PtePermissions)
    ensures Consistent(p) && p.read && !p.write && !p.execute && p.user == user && !p.cow
  {
    PtePermissions(true, false, false, user, false)
  }

  function Rw(user: bool): (p: PtePermissions)
    ensures Consistent(p) && p.read && p.write && !p.execute && p.user == user && !p.cow
  {
    PtePermissions(true, true, false, user, false)
  }

  function Rx(user: bool): (p: PtePermissions)
    ensures Consistent(p) && p.read && !p.write && p.execute && p.user == user && !p.cow
  {
    PtePermissions(true, false, true, user, false)
  }

  function Rwx(user: bool): (p: PtePermissions)
    ensures Consistent(p) && p.read && p.write && p.execute && p.user == user && !p.cow
  {
    PtePermissions(true, true, true, user, false)
  }

  /// `into_cow`: a writable mapping becomes read-only with the CoW marker;
  /// read, execute and user are kept.
  function IntoCow(p: PtePermissions): (q: PtePermissions)
    requires p.write
    ensures Consistent(q) && !q.write && q.cow
    ensures q.read == p.read && q.execute == p.execute && q.user == p.user
  {
    p.(write := false, cow := true)
  }

  /// `from_cow`: a CoW mapping becomes writable again and loses the marker.
  function FromCow(p: PtePermissions): (q: PtePermissions)
    requires p.cow
    ensures Consistent(q) && q.write && !q.cow
    ensures q.read == p.read && q.execute == p.execute && q.user == p.user
  {
    p.(write := true, cow := false)
  }

  /// Making a writable mapping CoW and then writable again restores it.
  lemma CowRoundTrip(p: PtePermissions)
    requires Consistent(p) && p.write
    ensures FromCow(IntoCow(p)) == p
  {
  }

  /// And the other way round, for a CoW mapping.
  lemma WriteRoundTrip(p: PtePermissions)
    requires Consistent(p) && p.cow
    ensures IntoCow(FromCow(p)) == p
  {
  }

  /// `Display`: `r`/`-`, then `w`, `c` or `-`, then `x`/`-`, a space and
  /// `u`/`k`, as in "rc- u".
  function Display(p: PtePermissions): (s: string)
    ensures |s| == 5 && s[3] == ' '
    ensures (s[0] == 'r') == p.read && (s[2] == 'x') == p.execute && (s[4] == 'u') == p.user
    ensures (s[1] == 'w') == p.write && (s[1] == 'c') == (!p.write && p.cow)
  {
    var r := if p.read then 'r' else '-';
    var x := if p.execute then 'x' else '-';
    var u := if p.user then 'u' else 'k';
    var wc := if p.write then 'w' else if p.cow then 'c' else '-';
    [r, wc, x, ' ', u]
  }

  /// Permissions that keep the invariant are told apart by their rendering.
  lemma DisplayInjective(p: PtePermissions, q: PtePermissions)
    requires Consistent(p) && Consistent(q)
    ensures Display(p) == Display(q) <==> p == q
  {
    if Display(p) == Display(q) {
      assert Display(p)[1] == Display(q)[1];
    }
  }
}
