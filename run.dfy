/** `main`: the settings check, then scrape the day's agenda and send the
    report. The browser's behaviour is an input; the clock is read twice in
    the source (once by `main`, once by the agenda scan), so the two days are
    separate inputs. */
module Run {
  import opened Wrappers
  import opened Extraction
  import opened Collection
  import opened Report

  /** The three settings read from the environment; None when unset. */
  datatype Env = Env(email: Option<string>, password: Option<string>, webhookUrl: Option<string>)

  /** Python truthiness of a setting: set and not the empty string. */
  predicate Present(setting: Option<string>) {
    setting.Some? && setting.value != ""
  }

  /** `all([PLANITY_EMAIL, PLANITY_PASSWORD, N8N_WEBHOOK_URL])`. */
  predicate ConfigOk(env: Env) {
    Present(env.email) && Present(env.password) && Present(env.webhookUrl)
  }

  /** What the browser does: whether starting the driver, filling in the
      login form and opening the agenda complete without an exception, and
      the appointment elements found there. `loginCompletes` only says that
      `login_planity` did not raise: the source never checks that the site
      accepted the credentials. */
  datatype Browser = Browser(driverStarts: bool, loginCompletes: bool, agendaLoads: bool, candidates: seq<Candidate>)

  /** How a run ends: stopped by the settings check (with the OK/MISSING flag
      it prints for each setting), stopped by an exception before anything is
      sent, or with a payload posted to the webhook. */
  datatype RunResult =
    | MissingConfig(emailOk: bool, passwordOk: bool, webhookOk: bool)
    | Crashed
    | Sent(payload: Payload)

  /** The run: check the settings, start the browser and log in, collect the
      records of the agenda's day, then send them, or an empty report when
      there are none, dated with `main`'s day. */
  function RunDay(env: Env, browser: Browser, runDay: string, agendaDay: string): RunResult {
    if !ConfigOk(env) then
      MissingConfig(Present(env.email), Present(env.password), Present(env.webhookUrl))
    else if !browser.driverStarts || !browser.loginCompletes || !browser.agendaLoads then
      Crashed
    else
      var rdvs := Collect(Outcomes(browser.candidates, agendaDay));
      if |rdvs| > 0 then Sent(MakePayload(rdvs, runDay))
      else Sent(MakePayload([], runDay))
  }

  /** `main` as a sequence of steps, with the agenda scanned by its loop. */
  method Scrape(env: Env, browser: Browser, runDay: string, agendaDay: string) returns (result: RunResult)
    ensures result == RunDay(env, browser, runDay, agendaDay)
  {
    if !ConfigOk(env) {
      return MissingConfig(Present(env.email), Present(env.password), Present(env.webhookUrl));
    }
    if !browser.driverStarts || !browser.loginCompletes || !browser.agendaLoads {
      // `init_driver`, `login_planity` or the agenda lookup raised.
      return Crashed;
    }
    var rdvs := GetTodayAppointments(browser.candidates, agendaDay);
    if |rdvs| > 0 {
      result := Sent(MakePayload(rdvs, runDay));
    } else {
      result := Sent(MakePayload([], runDay));
    }
  }

  /** The run stops at the settings check exactly when a setting is unset or
      empty, and then reports which ones. */
  lemma ConfigGate(env: Env, browser: Browser, runDay: string, agendaDay: string)
    ensures RunDay(env, browser, runDay, agendaDay).MissingConfig? <==> !ConfigOk(env)
    ensures !ConfigOk(env) ==>
      RunDay(env, browser, runDay, agendaDay)
        == MissingConfig(Present(env.email), Present(env.password), Present(env.webhookUrl))
  {
  }

  /** The run ends without a report exactly when the settings pass but one
      of the browser steps raises. */
  lemma CrashIff(env: Env, browser: Browser, runDay: string, agendaDay: string)
    ensures RunDay(env, browser, runDay, agendaDay).Crashed?
        <==> ConfigOk(env) && !(browser.driverStarts && browser.loginCompletes && browser.agendaLoads)
  {
  }

  /** An empty setting stops the run just as an unset one does. */
  lemma EmptySettingStops(env: Env, browser: Browser, runDay: string, agendaDay: string)
    requires env.email == Some("") || env.password == Some("") || env.webhookUrl == Some("")
    ensures RunDay(env, browser, runDay, agendaDay).MissingConfig?
  {
  }

  /** Once the browser steps succeed, the payload sent is the report of the
      collected records: both branches of `if rdvs` send the same thing. */
  lemma SendsCollectedReport(env: Env, browser: Browser, runDay: string, agendaDay: string)
    requires ConfigOk(env) && browser.driverStarts && browser.loginCompletes && browser.agendaLoads
    ensures RunDay(env, browser, runDay, agendaDay)
      == Sent(MakePayload(Collect(Outcomes(browser.candidates, agendaDay)), runDay))
  {
    var rdvs := Collect(Outcomes(browser.candidates, agendaDay));
    if |rdvs| == 0 {
      assert rdvs == [];
    }
  }

  /** A day where no candidate yields a record sends the empty report:
      no records, a count of 0 and no revenue. */
  lemma EmptyDaySendsEmptyReport(env: Env, browser: Browser, runDay: string, agendaDay: string)
    requires ConfigOk(env) && browser.driverStarts && browser.loginCompletes && browser.agendaLoads
    requires forall i :: 0 <= i < |browser.candidates| ==> !Visit(browser.candidates[i], agendaDay).Accepted?
    ensures RunDay(env, browser, runDay, agendaDay) == Sent(Payload(runDay, 0, 0.0, []))
  {
    NoneAccepted(Outcomes(browser.candidates, agendaDay));
  }

  /** When every candidate yields a record, the payload holds one record per
      candidate, in agenda order, counts them all, and sums their prices. */
  lemma EveryCandidateReported(env: Env, browser: Browser, runDay: string, agendaDay: string)
    requires ConfigOk(env) && browser.driverStarts && browser.loginCompletes && browser.agendaLoads
    requires forall i :: 0 <= i < |browser.candidates| ==> Visit(browser.candidates[i], agendaDay).Accepted?
    ensures var p := RunDay(env, browser, runDay, agendaDay).payload;
      && p.totalRdvs == |browser.candidates|
      && |p.rdvs| == |browser.candidates|
      && (forall i :: 0 <= i < |p.rdvs| ==> Some(p.rdvs[i]) == Extract(browser.candidates[i].modal, agendaDay))
      && p.caTotal == Total(p.rdvs)
  {
    SendsCollectedReport(env, browser, runDay, agendaDay);
    AllAccepted(Outcomes(browser.candidates, agendaDay));
  }

  /** Every record sent carries the agenda's day and the status "Honoré", and
      names a client or a service; the payload is dated with `main`'s day. */
  lemma SentRecordsAreAccepted(env: Env, browser: Browser, runDay: string, agendaDay: string)
    requires RunDay(env, browser, runDay, agendaDay).Sent?
    ensures var p := RunDay(env, browser, runDay, agendaDay).payload;
      && p.date == runDay
      && forall r :: r in p.rdvs ==>
           r.date == agendaDay && r.statut == Honoured && (r.client != "" || r.prestation != "")
  {
    SendsCollectedReport(env, browser, runDay, agendaDay);
    var p := RunDay(env, browser, runDay, agendaDay).payload;
    forall r | r in p.rdvs
      ensures r.date == agendaDay && r.statut == Honoured && (r.client != "" || r.prestation != "")
    {
      CollectedRecords(browser.candidates, agendaDay, r);
    }
  }

  /** With no minus sign in any price text, the revenue sent is not negative. */
  lemma RevenueNonNegative(env: Env, browser: Browser, runDay: string, agendaDay: string)
    requires RunDay(env, browser, runDay, agendaDay).Sent?
    requires forall i :: 0 <= i < |browser.candidates| && browser.candidates[i].modal.prix.Some?
               ==> '-' !in browser.candidates[i].modal.prix.value
    ensures RunDay(env, browser, runDay, agendaDay).payload.caTotal >= 0.0
  {
    SendsCollectedReport(env, browser, runDay, agendaDay);
    var p := RunDay(env, browser, runDay, agendaDay).payload;
    forall k | 0 <= k < |p.rdvs|
      ensures p.rdvs[k].prix >= 0.0
    {
      CollectedRecords(browser.candidates, agendaDay, p.rdvs[k]);
      var j :| 0 <= j < |browser.candidates| && browser.candidates[j].clickSucceeds
        && Extract(browser.candidates[j].modal, agendaDay) == Some(p.rdvs[k]);
      RecordPriceNonNegative(browser.candidates[j].modal, agendaDay);
    }
    TotalNonNegative(p.rdvs);
  }
}
