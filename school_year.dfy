/**
 * The billing year runs from July to June, and invoices are raised for July through May. This
 * module holds the month list that both the invoice and the PDE student list walk, and the
 * List<int>.IndexOf they look months up with.
 */
module SchoolYear {
  /** The invoice months in billing order: July..December, then January..May. June has none. */
  const InvoiceMonths: seq<int> := [7, 8, 9, 10, 11, 12, 1, 2, 3, 4, 5]

  /** List.IndexOf: the first position that holds x, or -1 when there is none. */
  function IndexOf(s: seq<int>, x: int): (i: int)
    ensures -1 <= i < |s|
    ensures 0 <= i ==> s[i] == x && forall j :: 0 <= j < i ==> s[j] != x
    ensures i == -1 <==> x !in s
  {
    if |s| == 0 then -1
    else if s[0] == x then 0
    else
      var k := IndexOf(s[1..], x);
      if k == -1 then -1 else k + 1
  }

  /** Position in the billing order of calendar month m: July is 0, May is 10, June is -1. */
  function BillingIndex(m: int): int
  {
    if 7 <= m <= 12 then m - 7 else if 1 <= m <= 5 then m + 5 else -1
  }

  /** Every invoice month has a billing position, and it is its position in the list. */
  lemma InvoiceMonthsBilled()
    ensures forall k :: 0 <= k < |InvoiceMonths| ==> BillingIndex(InvoiceMonths[k]) == k
  {
    forall k | 0 <= k < |InvoiceMonths|
      ensures BillingIndex(InvoiceMonths[k]) == k
    {
      InvoiceMonthsInverse(k);
    }
  }

  /** The first occurrence is what IndexOf finds. */
  lemma IndexOfFirst(s: seq<int>, x: int, k: int)
    requires 0 <= k < |s| && s[k] == x
    requires forall j :: 0 <= j < k ==> s[j] != x
    ensures IndexOf(s, x) == k
  {
    assert x in s;
  }

  /** IndexOf on the invoice months is the billing position. */
  lemma InvoiceMonthIndex(m: int)
    ensures IndexOf(InvoiceMonths, m) == BillingIndex(m)
  {
    if 1 <= m <= 12 && m != 6 {
      var k := BillingIndex(m);
      IndexOfFirst(InvoiceMonths, m, k);
    } else {
      assert m !in InvoiceMonths;
    }
  }

  /** Position i of the invoice months holds the calendar month whose billing position is i. */
  lemma InvoiceMonthsInverse(i: int)
    requires 0 <= i < |InvoiceMonths|
    ensures BillingIndex(InvoiceMonths[i]) == i
    ensures InvoiceMonths[i] == if i <= 5 then i + 7 else i - 5
  {
  }
}
