/**
 * Partition resolution by path prefix. Copy entries and package entries use
 * different prefixes ("vendor" against "vendor/") and different outputs
 * (a `TARGET_COPY_OUT_*` macro against a `*_specific` module flag).
 */
module Partitions {
  import opened Wrappers
  import opened Strings

  datatype Partition = Vendor | Product | Odm | System

  /** The partition of a copy entry: first match of the bare prefixes vendor, product, odm. */
  function CopyPartition(item: string): (r: Partition)
    ensures r == Vendor <==> StartsWith(item, "vendor")
    ensures r == Product <==> !StartsWith(item, "vendor") && StartsWith(item, "product")
    ensures r == Odm <==> !StartsWith(item, "vendor") && !StartsWith(item, "product") && StartsWith(item, "odm")
  {
    if StartsWith(item, "vendor") then Vendor
    else if StartsWith(item, "product") then Product
    else if StartsWith(item, "odm") then Odm
    else System
  }

  /** The destination macro a copy line puts in front of the entry. */
  function CopyMacro(p: Partition): string {
    match p
    case Vendor => "$(TARGET_COPY_OUT_VENDOR)/"
    case Product => "$(TARGET_COPY_OUT_PRODUCT)/"
    case Odm => "$(TARGET_COPY_OUT_ODM)/"
    case System => "$(TARGET_COPY_OUT_SYSTEM)/"
  }

  /** The partition of a package entry: first match of vendor/, product/, odm/ (with the slash). */
  function PackagePartition(target: string): (r: Partition)
    ensures r == Vendor <==> StartsWith(target, "vendor/")
    ensures r == Product <==> !StartsWith(target, "vendor/") && StartsWith(target, "product/")
    ensures r == Odm <==> !StartsWith(target, "vendor/") && !StartsWith(target, "product/") && StartsWith(target, "odm/")
  {
    if StartsWith(target, "vendor/") then Vendor
    else if StartsWith(target, "product/") then Product
    else if StartsWith(target, "odm/") then Odm
    else System
  }

  /** The module flag of a package partition; the default partition gets none. */
  function SpecificFlag(p: Partition): Option<string> {
    match p
    case Vendor => Some("soc_specific: true,")
    case Product => Some("product_specific: true,")
    case Odm => Some("device_specific: true,")
    case System => None
  }

  /**
   * The three prefixes start with different letters, so no path matches two
   * of them: the fixed checking order never decides anything, and a
   * "product" directory nested below "vendor/" is simply a vendor path.
   */
  lemma PrefixOrderIrrelevant(item: string)
    ensures CopyPartition(item) == Product <==> StartsWith(item, "product")
    ensures CopyPartition(item) == Odm <==> StartsWith(item, "odm")
    ensures CopyPartition(item) == System <==>
      !StartsWith(item, "vendor") && !StartsWith(item, "product") && !StartsWith(item, "odm")
    ensures PackagePartition(item) == Product <==> StartsWith(item, "product/")
    ensures PackagePartition(item) == Odm <==> StartsWith(item, "odm/")
  {
    assert StartsWith(item, "vendor") ==> item[0] == 'v';
    assert StartsWith(item, "product") ==> item[0] == 'p';
    assert StartsWith(item, "odm") ==> item[0] == 'o';
  }

  /**
   * A package entry placed on a partition is placed on the same partition as
   * a copy entry of that path.
   */
  lemma PackagePartitionRefinesCopy(target: string)
    ensures PackagePartition(target) != System ==> PackagePartition(target) == CopyPartition(target)
  {
    PrefixOrderIrrelevant(target);
    match PackagePartition(target)
    case Vendor => ShorterPrefix(target, "vendor/", 6);
    case Product => ShorterPrefix(target, "product/", 7);
    case Odm => ShorterPrefix(target, "odm/", 3);
    case System =>
  }

  /** The converse fails: "vendorfoo" is a vendor path for a copy entry and a system path for a package. */
  lemma BarePrefixIsNotADirectory()
    ensures CopyPartition("vendorfoo") == Vendor && PackagePartition("vendorfoo") == System
  {
    var v := "vendorfoo";
    assert v[..6] == "vendor";
    assert v[..7] != "vendor/" by { assert v[..7][6] == 'f'; }
    assert v[..8] != "product/" by { assert v[..8][0] == 'v'; }
    assert v[..4] != "odm/" by { assert v[..4][0] == 'v'; }
  }

  /** A string that starts with `p` starts with every prefix of `p`. */
  lemma ShorterPrefix(s: string, p: string, n: nat)
    requires StartsWith(s, p) && n <= |p|
    ensures StartsWith(s, p[..n])
  {
    assert s[..n] == p[..n];
  }

  /** Different partitions get different macros and different flags. */
  lemma OutputsDistinguishPartitions(p: Partition, q: Partition)
    requires p != q
    ensures CopyMacro(p) != CopyMacro(q)
    ensures SpecificFlag(p) != SpecificFlag(q)
  {
    assert CopyMacro(p)[18] != CopyMacro(q)[18];
  }

  /** Examples of the partition law. */
  lemma PartitionExamples()
    ensures CopyPartition("vendor/etc/x") == Vendor
    ensures CopyPartition("odm/lib/x") == Odm
    ensures CopyPartition("system/bin/x") == System
    ensures PackagePartition("vendor/lib/libfoo.so") == Vendor
  {
    assert "vendor/etc/x"[..6] == "vendor";
    assert "odm/lib/x"[..3] == "odm" && "odm/lib/x"[0] == 'o';
    assert "system/bin/x"[0] == 's';
    assert "vendor/lib/libfoo.so"[..7] == "vendor/";
  }
}
