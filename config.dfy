/** The configuration constants the core reads. */
module Config {

  /** Origin that root-relative links are resolved against. */
  const BaseUrl: string := "https://volunteer.laworks.com"

  /** CSS class markers on the opportunity link, in priority order, with the type each denotes. */
  const OppTypeClasses: seq<(string, string)> := [
    ("blue-key", "Volunteer Opportunity"),
    ("green-key", "Special Event"),
    ("light-gray-key", "Already Filled"),
    ("yellow-key", "Training")
  ]

  /** The type of a link that carries none of the markers. */
  const DefaultOppType: string := "Volunteer Opportunity"

  /** The four opportunity types a record can have. */
  const OppTypes: set<string> := {"Volunteer Opportunity", "Special Event", "Already Filled", "Training"}

  /** Hard cap on "Load more" clicks. */
  const MaxLoadMoreClicks: nat := 20
}
