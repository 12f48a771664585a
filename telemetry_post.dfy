/** `post_telemetry`: build the form payload of one received frame and POST
    it; a reply other than 201 Created is reported, never raised. The POST
    itself is a parameter: it maps a target URL and a form to the reply's
    status and text. */
module TelemetryPost {
  import opened Endpoints

  /** The form fields, by the names the DB service expects. The NORAD id is
      sent as given; the coordinates, the timestamp and the frame are the
      text the caller passes. */
  datatype TelemetryForm = TelemetryForm(
    noradID: int,
    source: string,   // receiver callsign
    timestamp: string,
    latitude: string,
    longitude: string,
    frame: string)

  /** What the call reports: accepted, or rejected with the reply's status
      and text (the source prints these). */
  datatype PostOutcome = Accepted | Rejected(status: int, text: string)

  /** The payload dictionary. The signature takes `lon` before `lat`; each
      lands in its own field. */
  function TelemetryPayload(noradId: int, source: string, lon: string, lat: string, timestamp: string,
                            frame: string): (form: TelemetryForm)
    ensures form.latitude == lat && form.longitude == lon
    ensures form.noradID == noradId && form.source == source && form.timestamp == timestamp && form.frame == frame
  {
    TelemetryForm(noradId, source, timestamp, lat, lon, frame)
  }

  /** `status_code != 201` is the only test: 201 is accepted, anything else
      (another 2xx included) is rejected, and nothing raises. */
  function Classify(status: int, text: string): (outcome: PostOutcome)
    ensures outcome.Accepted? <==> status == 201
    ensures outcome.Rejected? ==> outcome.status == status && outcome.text == text
  {
    if status != 201 then Rejected(status, text) else Accepted
  }

  /** The model of `post_telemetry`; the source's default target base is
      `DB_DEV_BASE_URL`. */
  function PostTelemetry(noradId: int, source: string, lon: string, lat: string, timestamp: string, frame: string,
                         post: (string, TelemetryForm) -> (int, string), baseUrl: string := DB_DEV_BASE_URL): (outcome: PostOutcome)
    ensures var reply := post(TelemetryPostUrl(baseUrl), TelemetryPayload(noradId, source, lon, lat, timestamp, frame));
            && (outcome.Accepted? <==> reply.0 == 201)
            && (outcome.Rejected? ==> outcome == Rejected(reply.0, reply.1))
  {
    var reply := post(TelemetryPostUrl(baseUrl), TelemetryPayload(noradId, source, lon, lat, timestamp, frame));
    Classify(reply.0, reply.1)
  }
}
