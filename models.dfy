/** The record one result row becomes. */
module Models {
  import opened Wrappers

  /** One volunteer opportunity; the capture timestamp is not part of the model. */
  datatype Opportunity = Opportunity(
    title: string,
    organization: string,
    location: string,
    date: Option<string>,
    time: Option<string>,
    duration: Option<string>,
    datetimeIso: Option<string>,
    distance: Option<string>,
    opportunityType: string,
    opportunityUrl: Option<string>,
    opportunityId: Option<string>,
    organizationUrl: Option<string>)
}
