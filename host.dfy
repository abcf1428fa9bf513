/** The choice of the management API host in the sidebar. */
module Host {
  import opened Wrappers

  /** The scheme every preset stack URL begins with. */
  const Https: string := "https://"

  /** The stack selector's entries; "Custom" lets the operator type a host. */
  const StackOptions: map<string, string> := map[
    "US Virginia (AWS)" := Https + "connection.keboola.com",
    "US Virginia (GCP)" := Https + "connection.us-east4.gcp.keboola.com",
    "EU Frankfurt (AWS)" := Https + "connection.eu-central-1.keboola.com",
    "EU Ireland (Azure)" := Https + "connection.north-europe.azure.keboola.com",
    "EU Frankfurt (GCP)" := Https + "connection.europe-west3.gcp.keboola.com",
    "Custom" := "custom"]

  /** The API host for a stack choice, or None when it does not start with
      "http" (the page then stops). */
  function ApiHost(choice: string, customInput: string): Option<string>
    requires choice in StackOptions
  {
    var host := if StackOptions[choice] == "custom" then customInput else StackOptions[choice];
    if "http" <= host then Some(host) else None
  }

  /** Every preset stack is accepted as it is, whatever the custom field holds. */
  lemma PresetHostsAccepted(choice: string, customInput: string)
    requires choice in StackOptions && choice != "Custom"
    ensures ApiHost(choice, customInput) == Some(StackOptions[choice])
  {
    var rest :| StackOptions[choice] == Https + rest;
    assert "http" <= Https;
    assert (Https + rest)[..4] == Https[..4];
  }

  /** A custom host is accepted, unchanged, exactly when it starts with
      "http"; the field's initial text "https://" passes. */
  lemma CustomHostChecked(customInput: string)
    ensures ApiHost("Custom", customInput).Some? <==> "http" <= customInput
    ensures ApiHost("Custom", customInput).Some? ==> ApiHost("Custom", customInput).value == customInput
    ensures ApiHost("Custom", Https) == Some(Https)
  {
  }
}
