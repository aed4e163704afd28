/** The assembler of the dashboard data: the performance sheet and the three
    partner sheets, each parsed from its CSV text. */
module Loader {
  import opened Tokenizer
  import opened Locator
  import opened Records

  /** The partner records of each channel. */
  datatype PartnerLists = PartnerLists(referrals: seq<Partner>, resellers: seq<Partner>, agencies: seq<Partner>)

  /** `{ perf, partners: { referrals, resellers, agencies } }` */
  datatype Dashboard = Dashboard(perf: Performance, partners: PartnerLists)

  /** The header labels of the three partner sheets. */
  const ReferralHeader := "Referral"
  const ResellerHeader := "Reseller"
  const AgencyHeader := "Agency"

  /** The result of `fetchAllData` once the four CSV texts have been fetched. */
  method AssembleAll(perfText: string, refText: string, resText: string, agText: string) returns (d: Dashboard)
    ensures d.perf == ParsePerformance(CsvRows(perfText))
    ensures d.partners.referrals == PartnerSheet(CsvRows(refText), ReferralHeader)
    ensures d.partners.resellers == PartnerSheet(CsvRows(resText), ResellerHeader)
    ensures d.partners.agencies == PartnerSheet(CsvRows(agText), AgencyHeader)
    ensures Shaped(d.perf) && d.perf.currentMonthIdx < 12
  {
    var perfRows := ParseCsv(perfText);
    var refRows := ParseCsv(refText);
    var resRows := ParseCsv(resText);
    var agRows := ParseCsv(agText);
    var perf := ParsePerformance(perfRows);
    var referrals := ParsePartnerSheet(refRows, ReferralHeader);
    var resellers := ParsePartnerSheet(resRows, ResellerHeader);
    var agencies := ParsePartnerSheet(agRows, AgencyHeader);
    d := Dashboard(perf, PartnerLists(referrals, resellers, agencies));
  }
}
