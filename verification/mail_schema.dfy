/** Mail metadata of migration.py: the six system flags as a bitset and the Atom entry
    (`encode_mail_schema`) as an ordered list of abstract child elements. */
module MailSchema {
  import opened Wrappers
  import opened Seqs

  datatype Flag = Draft | Inbox | Sent | Starred | Trash | Unread

  /** `MAIL_FLAGS`, in ascending bit order. */
  const MailFlags: seq<Flag> := [Draft, Inbox, Sent, Starred, Trash, Unread]

  /** The flag's bit: `MAIL_FLAGS[i] == 2**i`. */
  function BitIndex(f: Flag): (i: nat)
    ensures i < 6 && MailFlags[i] == f
  {
    match f
    case Draft => 0
    case Inbox => 1
    case Sent => 2
    case Starred => 3
    case Trash => 4
    case Unread => 5
  }

  /** `MAIL_PROPERTIES[flag]`. */
  function PropertyName(f: Flag): string
  {
    match f
    case Draft => "IS_DRAFT"
    case Inbox => "IS_INBOX"
    case Sent => "IS_SENT"
    case Starred => "IS_STARRED"
    case Trash => "IS_TRASH"
    case Unread => "IS_UNREAD"
  }

  /** The flag a property name stands for: the inverse of `PropertyName`. */
  function FlagNamed(name: string): (r: Option<Flag>)
    ensures r.Some? ==> PropertyName(r.value) == name
    ensures forall f :: PropertyName(f) == name ==> r == Some(f)
  {
    if name == "IS_DRAFT" then Some(Draft)
    else if name == "IS_INBOX" then Some(Inbox)
    else if name == "IS_SENT" then Some(Sent)
    else if name == "IS_STARRED" then Some(Starred)
    else if name == "IS_TRASH" then Some(Trash)
    else if name == "IS_UNREAD" then Some(Unread)
    else None
  }

  function Pow2(n: nat): nat
  {
    if n == 0 then 1 else 2 * Pow2(n - 1)
  }

  /** Bit `i` of `p` as Python's `&` sees it (two's complement for negative `p`; Dafny's
      `/` and `%` by 2 floor, as Python's do). */
  predicate HasBit(p: int, i: nat)
    decreases i
  {
    if i == 0 then p % 2 == 1 else HasBit(p / 2, i - 1)
  }

  /** `p | 2**i`. */
  function SetBit(p: int, i: nat): int
    decreases i
  {
    if i == 0 then (if p % 2 == 1 then p else p + 1)
    else 2 * SetBit(p / 2, i - 1) + p % 2
  }

  /** `flag & properties` is non-zero. */
  predicate HasFlag(p: int, f: Flag)
  {
    HasBit(p, BitIndex(f))
  }

  // ---------------------------------------------------------------------------
  // The schema

  const KindScheme := "http://schemas.google.com/g/2005#kind"
  const MailItemTerm := "http://schemas.google.com/apps/2006#mailItem"
  const MailContentType := "message/rfc822"

  /** The children of the `entry` element. */
  datatype Element =
    | Category(scheme: string, term: string)
    | AtomContent(contentType: string)
    | MailItemProperty(value: string)
    | Label(labelName: string)

  /** One `mailItemProperty` per flag of `flags` set in `p`, in the order of `flags`. */
  function PropertiesFrom(p: int, flags: seq<Flag>): seq<Element>
  {
    if flags == [] then []
    else (if HasFlag(p, flags[0]) then [MailItemProperty(PropertyName(flags[0]))] else [])
         + PropertiesFrom(p, flags[1..])
  }

  /** The `mailItemProperty` children: none for `None` or 0. */
  function PropertyElements(properties: Option<int>): seq<Element>
  {
    if properties.None? || properties.value == 0 then [] else PropertiesFrom(properties.value, MailFlags)
  }

  /** The `label` children: one per label, in order; none for `None` or an empty list. */
  function LabelElements(labels: Option<seq<string>>): seq<Element>
  {
    if labels.None? || labels.value == [] then [] else LabelChildren(labels.value)
  }

  /** One `label` child per name, in order. */
  function LabelChildren(ls: seq<string>): seq<Element>
  {
    seq(|ls|, k requires 0 <= k < |ls| => Label(ls[k]))
  }

  /** All children of the entry, in document order. */
  function SchemaChildren(properties: Option<int>, labels: Option<seq<string>>): seq<Element>
  {
    [Category(KindScheme, MailItemTerm), AtomContent(MailContentType)]
    + PropertyElements(properties) + LabelElements(labels)
  }

  /** Scanning one more flag appends the property it contributes, if any. */
  lemma {:induction false} PropertiesFromSnoc(p: int, flags: seq<Flag>, f: Flag)
    ensures PropertiesFrom(p, flags + [f])
            == PropertiesFrom(p, flags) + (if HasFlag(p, f) then [MailItemProperty(PropertyName(f))] else [])
    decreases |flags|
  {
    var y := if HasFlag(p, f) then [MailItemProperty(PropertyName(f))] else [];
    if flags == [] {
      assert [] + [f] == [f] && [f][1..] == [];
      assert PropertiesFrom(p, [f]) == y + PropertiesFrom(p, []);
    } else {
      var g := flags[0];
      var x := if HasFlag(p, g) then [MailItemProperty(PropertyName(g))] else [];
      var tail := flags[1..];
      assert (flags + [f])[0] == g && (flags + [f])[1..] == tail + [f];
      assert PropertiesFrom(p, flags + [f]) == x + PropertiesFrom(p, tail + [f]);
      PropertiesFromSnoc(p, tail, f);
      assert PropertiesFrom(p, flags) == x + PropertiesFrom(p, tail);
    }
  }

  /** The properties of the first `i + 1` flags extend those of the first `i`. */
  lemma PropertiesStep(p: int, flags: seq<Flag>, i: nat)
    requires i < |flags|
    ensures PropertiesFrom(p, flags[..i + 1])
            == PropertiesFrom(p, flags[..i])
               + (if HasFlag(p, flags[i]) then [MailItemProperty(PropertyName(flags[i]))] else [])
  {
    assert flags[..i + 1] == flags[..i] + [flags[i]];
    PropertiesFromSnoc(p, flags[..i], flags[i]);
  }

  /** The label children of the first `j + 1` names extend those of the first `j`. */
  lemma LabelsStep(ls: seq<string>, j: nat)
    requires j < |ls|
    ensures LabelChildren(ls[..j + 1]) == LabelChildren(ls[..j]) + [Label(ls[j])]
  {
  }

  /** The flag loop of `encode_mail_schema`: one property child per flag set in `p`, in the
      order of `MailFlags`, after the children so far. */
  method AppendProperties(children: seq<Element>, p: int) returns (out: seq<Element>)
    ensures out == children + PropertiesFrom(p, MailFlags)
  {
    out := children;
    var flags := MailFlags;
    var i := 0;
    assert flags[..0] == [];
    while i < |flags|
      invariant 0 <= i <= |flags|
      invariant out == children + PropertiesFrom(p, flags[..i])
    {
      var flag := flags[i];
      PropertiesStep(p, flags, i);
      if HasFlag(p, flag) {
        out := out + [MailItemProperty(PropertyName(flag))];
      }
      i := i + 1;
    }
    assert flags[..i] == flags;
  }

  /** The label loop of `encode_mail_schema`: one label child per name, in order, after the
      children so far. */
  method AppendLabels(children: seq<Element>, ls: seq<string>) returns (out: seq<Element>)
    ensures out == children + LabelChildren(ls)
  {
    out := children;
    var j := 0;
    assert ls[..0] == [];
    while j < |ls|
      invariant 0 <= j <= |ls|
      invariant out == children + LabelChildren(ls[..j])
    {
      LabelsStep(ls, j);
      out := out + [Label(ls[j])];
      j := j + 1;
    }
    assert ls[..j] == ls;
  }

  /** `encode_mail_schema`, up to the XML text. */
  method EncodeMailSchema(properties: Option<int>, labels: Option<seq<string>>) returns (children: seq<Element>)
    ensures children == SchemaChildren(properties, labels)
  {
    children := [Category(KindScheme, MailItemTerm), AtomContent(MailContentType)];
    if properties.Some? && properties.value != 0 {
      children := AppendProperties(children, properties.value);
    }
    if labels.Some? && labels.value != [] {
      children := AppendLabels(children, labels.value);
    }
  }

  // ---------------------------------------------------------------------------
  // Bit arithmetic

  lemma {:induction false} HasBitZero(i: nat)
    ensures !HasBit(0, i)
  {
    if i > 0 {
      HasBitZero(i - 1);
    }
  }

  /** Appending bit `b` below `q`: the parity is `b` and halving gives `q` back. */
  lemma Halve(q: int, b: int)
    requires b == 0 || b == 1
    ensures (2 * q + b) % 2 == b && (2 * q + b) / 2 == q
  {
  }

  /** Setting bit `j` sets exactly bit `j`. */
  lemma {:induction false} SetBitSpec(p: int, j: nat, i: nat)
    ensures HasBit(SetBit(p, j), i) <==> HasBit(p, i) || i == j
    decreases j
  {
    var s := SetBit(p, j);
    if j == 0 {
      if p % 2 != 1 {
        assert s == 2 * (p / 2) + 1;
        Halve(p / 2, 1);
        if i > 0 {
          assert HasBit(s, i) == HasBit(s / 2, i - 1);
          assert HasBit(p, i) == HasBit(p / 2, i - 1);
        }
      }
    } else {
      var q := SetBit(p / 2, j - 1);
      assert s == 2 * q + p % 2;
      Halve(q, p % 2);
      if i > 0 {
        SetBitSpec(p / 2, j - 1, i - 1);
        assert HasBit(s, i) == HasBit(q, i - 1);
        assert HasBit(p, i) == HasBit(p / 2, i - 1);
      } else {
        assert HasBit(s, 0) == (s % 2 == 1);
      }
    }
  }

  /** Setting a bit below `n` keeps a value in `[0, 2**n)`. */
  lemma {:induction false} SetBitBound(p: int, j: nat, n: nat)
    requires 0 <= p < Pow2(n) && j < n
    ensures 0 <= SetBit(p, j) < Pow2(n)
  {
    var half := Pow2(n - 1);
    assert Pow2(n) == 2 * half;
    var q := p / 2;
    assert p == 2 * q + p % 2;
    assert 0 <= q < half;
    if j == 0 {
      assert SetBit(p, 0) == 2 * q + 1;
    } else {
      SetBitBound(q, j - 1, n - 1);
      assert SetBit(p, j) == 2 * SetBit(q, j - 1) + p % 2;
    }
  }

  /** A value in `[0, 2**n)` has no bit at `n` or above. */
  lemma {:induction false} NoHighBits(p: int, n: nat, i: nat)
    requires 0 <= p < Pow2(n) && n <= i
    ensures !HasBit(p, i)
  {
    if n == 0 {
      assert p == 0;
      HasBitZero(i);
    } else {
      NoHighBits(p / 2, n - 1, i - 1);
    }
  }

  /** Two values in `[0, 2**n)` with the same low `n` bits are equal. */
  lemma {:induction false} BitsDetermine(p: int, q: int, n: nat)
    requires 0 <= p < Pow2(n) && 0 <= q < Pow2(n)
    requires forall i :: 0 <= i < n ==> (HasBit(p, i) <==> HasBit(q, i))
    ensures p == q
  {
    if n > 0 {
      assert HasBit(p, 0) <==> HasBit(q, 0);
      forall i | 0 <= i < n - 1 ensures HasBit(p / 2, i) <==> HasBit(q / 2, i) {
        assert HasBit(p, i + 1) <==> HasBit(q, i + 1);
      }
      BitsDetermine(p / 2, q / 2, n - 1);
    }
  }

  /** Adding a multiple of `2**n` leaves the low `n` bits alone. */
  lemma {:induction false} HasBitShift(p: int, k: int, n: nat, i: nat)
    requires i < n
    ensures HasBit(p + Pow2(n) * k, i) <==> HasBit(p, i)
    decreases i
  {
    var m := Pow2(n - 1) * k;
    assert Pow2(n) * k == 2 * m;
    assert (p + 2 * m) % 2 == p % 2;
    if i > 0 {
      assert (p + 2 * m) / 2 == p / 2 + m;
      HasBitShift(p / 2, k, n - 1, i - 1);
    }
  }

  /** `p % 64` keeps exactly the six flag bits of `p`. */
  lemma LowSixBits(p: int, i: nat)
    requires i < 6
    ensures HasBit(p % 64, i) <==> HasBit(p, i)
  {
    assert Pow2(6) == 64;
    assert p == p % 64 + 64 * (p / 64);
    HasBitShift(p % 64, p / 64, 6, i);
  }

  // ---------------------------------------------------------------------------
  // Reading the schema back

  /** ORs into `acc` the flag of every `mailItemProperty` child with a known name. */
  function DecodePropertiesFrom(acc: int, children: seq<Element>): int
    decreases |children|
  {
    if children == [] then acc
    else
      var acc' := match children[0]
        case MailItemProperty(v) => (match FlagNamed(v) case Some(f) => SetBit(acc, BitIndex(f)) case None => acc)
        case _ => acc;
      DecodePropertiesFrom(acc', children[1..])
  }

  /** The flag bitset an entry's children describe. */
  function DecodeProperties(children: seq<Element>): int
  {
    DecodePropertiesFrom(0, children)
  }

  /** The label names of an entry's children, in order. */
  function LabelsOf(children: seq<Element>): seq<string>
  {
    if children == [] then []
    else (if children[0].Label? then [children[0].labelName] else []) + LabelsOf(children[1..])
  }

  lemma {:induction false} DecodeAppend(acc: int, xs: seq<Element>, ys: seq<Element>)
    ensures DecodePropertiesFrom(acc, xs + ys) == DecodePropertiesFrom(DecodePropertiesFrom(acc, xs), ys)
    decreases |xs|
  {
    if xs == [] {
      assert xs + ys == ys;
    } else {
      assert (xs + ys)[0] == xs[0];
      assert (xs + ys)[1..] == xs[1..] + ys;
      var acc' := match xs[0]
        case MailItemProperty(v) => (match FlagNamed(v) case Some(f) => SetBit(acc, BitIndex(f)) case None => acc)
        case _ => acc;
      DecodeAppend(acc', xs[1..], ys);
    }
  }

  lemma {:induction false} DecodeLabels(acc: int, labels: Option<seq<string>>)
    ensures DecodePropertiesFrom(acc, LabelElements(labels)) == acc
    decreases if labels.None? then 0 else |labels.value|
  {
    if labels.Some? && labels.value != [] {
      var ls := labels.value;
      var es := LabelElements(labels);
      assert es == [Label(ls[0])] + LabelElements(Some(ls[1..]));
      assert es[1..] == LabelElements(Some(ls[1..]));
      DecodeLabels(acc, Some(ls[1..]));
    }
  }

  /** Decoding the properties of `flags` set in `p` on top of `acc` sets exactly those flags;
      it stays in `[0, 64)` when `acc` does. */
  lemma {:induction false} DecodePropertiesFromSpec(acc: int, p: int, flags: seq<Flag>)
    ensures forall f :: HasFlag(DecodePropertiesFrom(acc, PropertiesFrom(p, flags)), f)
                        <==> HasFlag(acc, f) || (f in flags && HasFlag(p, f))
    ensures 0 <= acc < 64 ==> 0 <= DecodePropertiesFrom(acc, PropertiesFrom(p, flags)) < 64
    decreases |flags|
  {
    if flags != [] {
      var g := flags[0];
      var head := if HasFlag(p, g) then [MailItemProperty(PropertyName(g))] else [];
      var acc' := if HasFlag(p, g) then SetBit(acc, BitIndex(g)) else acc;
      assert PropertiesFrom(p, flags) == head + PropertiesFrom(p, flags[1..]);
      DecodeAppend(acc, head, PropertiesFrom(p, flags[1..]));
      if HasFlag(p, g) {
        assert FlagNamed(PropertyName(g)) == Some(g);
        assert head[1..] == [];
        assert DecodePropertiesFrom(acc, head) == acc';
      }
      assert DecodePropertiesFrom(acc, head) == acc';
      DecodePropertiesFromSpec(acc', p, flags[1..]);
      forall f ensures HasFlag(acc', f) <==> HasFlag(acc, f) || (f == g && HasFlag(p, g)) {
        if HasFlag(p, g) {
          SetBitSpec(acc, BitIndex(g), BitIndex(f));
        }
      }
      if 0 <= acc < 64 && HasFlag(p, g) {
        assert Pow2(6) == 64;
        SetBitBound(acc, BitIndex(g), 6);
      }
    }
  }

  /** The schema carries exactly the six low bits of `properties`: decoding its
      `mailItemProperty` children gives `properties % 64`, and 0 for `None`. */
  lemma SchemaPropertiesRoundTrip(properties: Option<int>, labels: Option<seq<string>>)
    ensures DecodeProperties(SchemaChildren(properties, labels))
            == if properties.None? then 0 else properties.value % 64
    ensures forall i :: 6 <= i ==> !HasBit(DecodeProperties(SchemaChildren(properties, labels)), i)
  {
    var head := [Category(KindScheme, MailItemTerm), AtomContent(MailContentType)];
    var props := PropertyElements(properties);
    DecodeAppend(0, head + props, LabelElements(labels));
    DecodeAppend(0, head, props);
    assert head[1..][1..] == [];
    assert DecodePropertiesFrom(0, head[1..][1..]) == 0;
    assert DecodePropertiesFrom(0, head) == 0;
    var d := DecodePropertiesFrom(0, props);
    DecodeLabels(d, labels);
    assert DecodeProperties(SchemaChildren(properties, labels)) == d;
    if properties.None? {
    } else if properties.value == 0 {
    } else {
      var p := properties.value;
      DecodePropertiesFromSpec(0, p, MailFlags);
      assert Pow2(6) == 64;
      forall i | 0 <= i < 6 ensures HasBit(d, i) <==> HasBit(p % 64, i) {
        var f := MailFlags[i];
        assert BitIndex(f) == i;
        assert f in MailFlags;
        HasBitZero(i);
        LowSixBits(p, i);
      }
      BitsDetermine(d, p % 64, 6);
    }
    assert Pow2(6) == 64;
    forall i | 6 <= i ensures !HasBit(d, i) {
      NoHighBits(d, 6, i);
    }
  }

  /** No duplicates, no extras: for each flag, the schema has one `mailItemProperty` with
      its name when the flag's bit is set and none otherwise. */
  lemma SchemaPropertyCount(properties: Option<int>, labels: Option<seq<string>>, f: Flag)
    ensures Count(SchemaChildren(properties, labels), MailItemProperty(PropertyName(f)))
            == if properties.Some? && HasFlag(properties.value, f) then 1 else 0
  {
    var e := MailItemProperty(PropertyName(f));
    var head := [Category(KindScheme, MailItemTerm), AtomContent(MailContentType)];
    var props := PropertyElements(properties);
    CountAppend(head + props, LabelElements(labels), e);
    CountAppend(head, props, e);
    assert Count(head, e) == 0;
    LabelCountZero(labels, e);
    if properties.Some? && properties.value != 0 {
      CountPropertiesFrom(properties.value, MailFlags, f);
    } else if properties.Some? {
      HasBitZero(BitIndex(f));
    }
  }

  lemma {:induction false} LabelCountZero(labels: Option<seq<string>>, e: Element)
    requires !e.Label?
    ensures Count(LabelElements(labels), e) == 0
    decreases if labels.None? then 0 else |labels.value|
  {
    if labels.Some? && labels.value != [] {
      var ls := labels.value;
      assert LabelElements(labels)[1..] == LabelElements(Some(ls[1..]));
      LabelCountZero(Some(ls[1..]), e);
    }
  }

  lemma {:induction false} CountPropertiesFrom(p: int, flags: seq<Flag>, f: Flag)
    requires forall a, b :: 0 <= a < b < |flags| ==> flags[a] != flags[b]
    ensures Count(PropertiesFrom(p, flags), MailItemProperty(PropertyName(f)))
            == if f in flags && HasFlag(p, f) then 1 else 0
  {
    if flags != [] {
      var g := flags[0];
      var e := MailItemProperty(PropertyName(f));
      var head := if HasFlag(p, g) then [MailItemProperty(PropertyName(g))] else [];
      CountAppend(head, PropertiesFrom(p, flags[1..]), e);
      CountPropertiesFrom(p, flags[1..], f);
      assert FlagNamed(PropertyName(g)) == Some(g);
      if f == g {
        assert f !in flags[1..];
      }
    }
  }

  /** The labels come back in input order, every one of them, duplicates included. */
  lemma SchemaLabelsRoundTrip(properties: Option<int>, labels: Option<seq<string>>)
    ensures LabelsOf(SchemaChildren(properties, labels)) == if labels.None? then [] else labels.value
  {
    var head := [Category(KindScheme, MailItemTerm), AtomContent(MailContentType)];
    LabelsOfAppend(head + PropertyElements(properties), LabelElements(labels));
    LabelsOfAppend(head, PropertyElements(properties));
    assert LabelsOf(head) == [];
    if properties.Some? && properties.value != 0 {
      LabelsOfProperties(properties.value, MailFlags);
    }
    LabelsOfLabels(labels);
  }

  lemma {:induction false} LabelsOfAppend(xs: seq<Element>, ys: seq<Element>)
    ensures LabelsOf(xs + ys) == LabelsOf(xs) + LabelsOf(ys)
  {
    if xs == [] {
      assert xs + ys == ys;
    } else {
      assert (xs + ys)[0] == xs[0];
      assert (xs + ys)[1..] == xs[1..] + ys;
      LabelsOfAppend(xs[1..], ys);
    }
  }

  lemma {:induction false} LabelsOfProperties(p: int, flags: seq<Flag>)
    ensures LabelsOf(PropertiesFrom(p, flags)) == []
  {
    if flags != [] {
      var head := if HasFlag(p, flags[0]) then [MailItemProperty(PropertyName(flags[0]))] else [];
      LabelsOfAppend(head, PropertiesFrom(p, flags[1..]));
      LabelsOfProperties(p, flags[1..]);
    }
  }

  lemma {:induction false} LabelsOfLabels(labels: Option<seq<string>>)
    ensures LabelsOf(LabelElements(labels)) == if labels.None? then [] else labels.value
    decreases if labels.None? then 0 else |labels.value|
  {
    if labels.Some? && labels.value != [] {
      var ls := labels.value;
      assert LabelElements(labels)[1..] == LabelElements(Some(ls[1..]));
      LabelsOfLabels(Some(ls[1..]));
      assert [ls[0]] + ls[1..] == ls;
    }
  }

  /** The category and content children always come first; then one child per set flag
      and one per label. */
  lemma SchemaShape(properties: Option<int>, labels: Option<seq<string>>)
    ensures var children := SchemaChildren(properties, labels);
      |children| >= 2 && children[0] == Category(KindScheme, MailItemTerm)
      && children[1] == AtomContent(MailContentType)
      && |children| == 2 + |PropertyElements(properties)| + (if labels.None? then 0 else |labels.value|)
  {
  }

  /** The flag a `mailItemProperty` child names, if it names one. */
  function PropertyFlag(e: Element): Option<Flag>
  {
    if e.MailItemProperty? then FlagNamed(e.value) else None
  }

  /** Where a child sorts among the flag properties: its flag's bit, or 6 for any other. */
  function FlagRank(e: Element): nat
  {
    match PropertyFlag(e)
    case Some(f) => BitIndex(f)
    case None => 6
  }

  /** `e` is the `mailItemProperty` of a flag of `flags` that is set in `p`. */
  predicate SetFlagProperty(p: int, flags: seq<Flag>, e: Element)
  {
    && PropertyFlag(e).Some?
    && e == MailItemProperty(PropertyName(PropertyFlag(e).value))
    && PropertyFlag(e).value in flags
    && HasFlag(p, PropertyFlag(e).value)
  }

  /** Flags listed in strictly ascending bit order, as `MAIL_FLAGS` is. */
  predicate Ascending(flags: seq<Flag>)
  {
    forall a, b :: 0 <= a < b < |flags| ==> BitIndex(flags[a]) < BitIndex(flags[b])
  }

  /** Every child `PropertiesFrom` builds is the property of a flag of `flags` set in `p`. */
  lemma {:induction false} PropertiesFromFlags(p: int, flags: seq<Flag>)
    ensures forall k :: 0 <= k < |PropertiesFrom(p, flags)| ==> SetFlagProperty(p, flags, PropertiesFrom(p, flags)[k])
    decreases |flags|
  {
    if flags != [] {
      var g := flags[0];
      var rest := PropertiesFrom(p, flags[1..]);
      var ps := PropertiesFrom(p, flags);
      PropertiesFromFlags(p, flags[1..]);
      forall k | 0 <= k < |rest| ensures SetFlagProperty(p, flags, rest[k]) {
        assert SetFlagProperty(p, flags[1..], rest[k]);
      }
      if HasFlag(p, g) {
        assert ps == [MailItemProperty(PropertyName(g))] + rest;
        assert FlagNamed(PropertyName(g)) == Some(g);
        forall k | 1 <= k < |ps| ensures SetFlagProperty(p, flags, ps[k]) {
          assert ps[k] == rest[k - 1];
        }
      } else {
        assert ps == rest;
      }
    }
  }

  /** Over flags in ascending bit order, the children `PropertiesFrom` builds come in
      strictly ascending bit order. */
  lemma {:induction false} PropertiesFromOrdered(p: int, flags: seq<Flag>)
    requires Ascending(flags)
    ensures forall a, b :: 0 <= a < b < |PropertiesFrom(p, flags)| ==>
              FlagRank(PropertiesFrom(p, flags)[a]) < FlagRank(PropertiesFrom(p, flags)[b])
    decreases |flags|
  {
    if flags != [] {
      var g := flags[0];
      var rest := PropertiesFrom(p, flags[1..]);
      var ps := PropertiesFrom(p, flags);
      assert Ascending(flags[1..]);
      PropertiesFromOrdered(p, flags[1..]);
      if HasFlag(p, g) {
        var e := MailItemProperty(PropertyName(g));
        assert ps == [e] + rest;
        assert FlagNamed(PropertyName(g)) == Some(g);
        LaterFlagsAbove(p, flags);
        forall a, b | 0 <= a < b < |ps| ensures FlagRank(ps[a]) < FlagRank(ps[b]) {
          assert ps[b] == rest[b - 1];
          if a > 0 {
            assert ps[a] == rest[a - 1];
          }
        }
      } else {
        assert ps == rest;
      }
    }
  }

  /** Over ascending flags, the properties of the flags after the first all rank above it. */
  lemma LaterFlagsAbove(p: int, flags: seq<Flag>)
    requires Ascending(flags) && flags != []
    ensures forall k :: 0 <= k < |PropertiesFrom(p, flags[1..])| ==>
              BitIndex(flags[0]) < FlagRank(PropertiesFrom(p, flags[1..])[k])
  {
    var rest := PropertiesFrom(p, flags[1..]);
    PropertiesFromFlags(p, flags[1..]);
    forall k | 0 <= k < |rest| ensures BitIndex(flags[0]) < FlagRank(rest[k]) {
      assert SetFlagProperty(p, flags[1..], rest[k]);
      var f := PropertyFlag(rest[k]).value;
      var j :| 0 <= j < |flags[1..]| && flags[1..][j] == f;
      assert flags[j + 1] == f;
    }
  }

  lemma MailFlagsAscending()
    ensures Ascending(MailFlags)
  {
  }

  /** Nothing but flag properties and labels follows the first two children: every
      `mailItemProperty` child names a flag set in `properties`, the property children
      come in `MAIL_FLAGS` order, and every child after a label is a label. */
  lemma SchemaPropertyOrder(properties: Option<int>, labels: Option<seq<string>>)
    ensures forall k :: 2 <= k < |SchemaChildren(properties, labels)| ==>
              SchemaChildren(properties, labels)[k].MailItemProperty? || SchemaChildren(properties, labels)[k].Label?
    ensures forall k :: 0 <= k < |SchemaChildren(properties, labels)| && SchemaChildren(properties, labels)[k].MailItemProperty? ==>
              properties.Some? && SetFlagProperty(properties.value, MailFlags, SchemaChildren(properties, labels)[k])
    ensures forall a, b :: 0 <= a < b < |SchemaChildren(properties, labels)|
                           && SchemaChildren(properties, labels)[a].MailItemProperty?
                           && SchemaChildren(properties, labels)[b].MailItemProperty? ==>
              FlagRank(SchemaChildren(properties, labels)[a]) < FlagRank(SchemaChildren(properties, labels)[b])
    ensures forall a, b :: 0 <= a < b < |SchemaChildren(properties, labels)| && SchemaChildren(properties, labels)[a].Label? ==>
              SchemaChildren(properties, labels)[b].Label?
  {
    var props := PropertyElements(properties);
    var ls := LabelElements(labels);
    var children := SchemaChildren(properties, labels);
    PropertyElementsSpec(properties);
    forall k | 0 <= k < |children|
      ensures k < 2 ==> !children[k].MailItemProperty? && !children[k].Label?
      ensures 2 <= k < 2 + |props| ==> children[k] == props[k - 2]
      ensures 2 + |props| <= k ==> children[k] == ls[k - 2 - |props|] && children[k].Label?
    {
    }
  }

  /** The property children alone: each names a flag set in `properties`, in bit order. */
  lemma PropertyElementsSpec(properties: Option<int>)
    ensures forall k :: 0 <= k < |PropertyElements(properties)| ==>
              properties.Some? && SetFlagProperty(properties.value, MailFlags, PropertyElements(properties)[k])
    ensures forall a, b :: 0 <= a < b < |PropertyElements(properties)| ==>
              FlagRank(PropertyElements(properties)[a]) < FlagRank(PropertyElements(properties)[b])
  {
    if properties.Some? && properties.value != 0 {
      var p := properties.value;
      assert PropertyElements(properties) == PropertiesFrom(p, MailFlags);
      MailFlagsAscending();
      PropertiesFromFlags(p, MailFlags);
      PropertiesFromOrdered(p, MailFlags);
    } else {
      assert PropertyElements(properties) == [];
    }
  }
}
