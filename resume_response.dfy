/** The resume response: a stored resume with its absent optional texts
    shown as empty strings and its lists mapped element by element. */
module ResumeResponse {
  import opened Common
  import opened ResumeDomain
  import ResumeRequest

  /** The job and tech-stack responses carry the identifier and the name. */
  datatype JobResponse = JobResponse(id: string, name: string)

  datatype TechStackResponse = TechStackResponse(id: string, name: string)

  datatype JobExperienceResponse = JobExperienceResponse(companyName: string, experiencePeriod: ExperienceYear,
                                                         responsibilities: string)

  /** A project experience is reported in the same shape as a job
      experience, its project name in the `companyName` field. */
  datatype ProjectExperienceResponse = ProjectExperienceResponse(companyName: string,
                                                                 experiencePeriod: ExperienceYear,
                                                                 responsibilities: string)

  datatype ResumeResponse = ResumeResponse(
    id: string,
    title: string,
    userName: string,
    userGender: Gender,
    userBirthDate: int,
    userPhoneNumber: string,
    userEmail: string,
    userProfileImageUrl: string,
    desiredJobs: seq<JobResponse>,
    techStacks: seq<TechStackResponse>,
    jobExperiences: seq<JobExperienceResponse>,
    projectExperiences: seq<ProjectExperienceResponse>,
    portfolioFileUrl: string,
    portfolioUrl: seq<string>,
    selfDescription: string)

  function JobFrom(j: Job): (r: JobResponse)
    ensures r.id == j.id && r.name == j.name
  {
    JobResponse(j.id, j.name)
  }

  function TechStackFrom(t: TechStack): (r: TechStackResponse)
    ensures r.id == t.id && r.name == t.name
  {
    TechStackResponse(t.id, t.name)
  }

  function JobExperienceFrom(e: JobExperience): (r: JobExperienceResponse)
    ensures r.companyName == e.companyName && r.experiencePeriod == e.experiencePeriod
    ensures r.responsibilities == e.responsibilities
  {
    JobExperienceResponse(e.companyName, e.experiencePeriod, e.responsibilities)
  }

  function ProjectExperienceFrom(e: ProjectExperience): (r: ProjectExperienceResponse)
    ensures r.companyName == e.projectName
    ensures r.experiencePeriod == e.experiencePeriod && r.responsibilities == e.responsibilities
  {
    ProjectExperienceResponse(e.projectName, e.experiencePeriod, e.responsibilities)
  }

  /** An optional text as the response shows it: the text, or "" when it
      is absent. */
  function OrEmpty(s: Option<string>): (r: string)
    ensures s.Some? ==> r == s.value
    ensures s.None? ==> r == ""
  {
    s.GetOr("")
  }

  /** The response for a stored resume; the resume must have an
      identifier. */
  function From(resume: Resume): (r: ResumeResponse)
    requires resume.id.Some?
    ensures r.id == resume.id.value
    ensures r.title == resume.title && r.userName == resume.userName
    ensures r.userGender == resume.userGender && r.userBirthDate == resume.userBirthDate
    ensures r.userPhoneNumber == resume.userPhoneNumber && r.userEmail == resume.userEmail
    ensures r.portfolioUrl == resume.portfolioUrl
    ensures r.userProfileImageUrl == OrEmpty(resume.userProfileImageUrl)
    ensures r.portfolioFileUrl == OrEmpty(resume.portfolioFileUrl)
    ensures r.selfDescription == OrEmpty(resume.selfDescription)
    ensures |r.desiredJobs| == |resume.desiredJobs| &&
            forall i | 0 <= i < |r.desiredJobs| :: r.desiredJobs[i] == JobFrom(resume.desiredJobs[i])
    ensures |r.techStacks| == |resume.techStacks| &&
            forall i | 0 <= i < |r.techStacks| :: r.techStacks[i] == TechStackFrom(resume.techStacks[i])
    ensures |r.jobExperiences| == |resume.jobExperiences| &&
            forall i | 0 <= i < |r.jobExperiences| ::
              r.jobExperiences[i] == JobExperienceFrom(resume.jobExperiences[i])
    ensures |r.projectExperiences| == |resume.projectExperiences| &&
            forall i | 0 <= i < |r.projectExperiences| ::
              r.projectExperiences[i] == ProjectExperienceFrom(resume.projectExperiences[i])
  {
    ResumeResponse(resume.id.value, resume.title, resume.userName, resume.userGender,
                   resume.userBirthDate, resume.userPhoneNumber, resume.userEmail,
                   OrEmpty(resume.userProfileImageUrl),
                   Map(resume.desiredJobs, JobFrom), Map(resume.techStacks, TechStackFrom),
                   Map(resume.jobExperiences, JobExperienceFrom),
                   Map(resume.projectExperiences, ProjectExperienceFrom),
                   OrEmpty(resume.portfolioFileUrl), resume.portfolioUrl,
                   OrEmpty(resume.selfDescription))
  }

  /** The response for a resume created from a request and then given an
      identifier by the store reports the request's data: its title, user
      fields and portfolio links, every entry of the four lists in order (a
      project experience's project name under `companyName`), and "" for
      every absent optional text. The request's user id and active flag are
      not reported. */
  lemma ResponseOfCreatedResume(req: ResumeRequest.CreateResumeRequest, id: string)
    ensures var r := From(req.ToEntity().(id := Some(id)));
            && r.id == id && r.title == req.title && r.userName == req.userName
            && r.userEmail == req.userEmail && r.userPhoneNumber == req.userPhoneNumber
            && r.userGender == req.userGender && r.userBirthDate == req.userBirthDate
            && r.portfolioUrl == req.portfolioUrl
            && r.selfDescription == OrEmpty(req.selfDescription)
            && r.userProfileImageUrl == OrEmpty(req.userProfileImageUrl)
            && r.portfolioFileUrl == OrEmpty(req.portfolioFileUrl)
            && |r.projectExperiences| == |req.projectExperiences|
            && (forall i | 0 <= i < |r.projectExperiences| ::
                  r.projectExperiences[i].companyName == req.projectExperiences[i].projectName &&
                  r.projectExperiences[i].experiencePeriod == req.projectExperiences[i].experiencePeriod &&
                  r.projectExperiences[i].responsibilities == req.projectExperiences[i].responsibilities)
            && |r.desiredJobs| == |req.desiredJobs|
            && (forall i | 0 <= i < |r.desiredJobs| ::
                  r.desiredJobs[i].id == req.desiredJobs[i].id && r.desiredJobs[i].name == req.desiredJobs[i].name)
            && |r.techStacks| == |req.techStacks|
            && (forall i | 0 <= i < |r.techStacks| ::
                  r.techStacks[i].id == req.techStacks[i].id && r.techStacks[i].name == req.techStacks[i].name)
            && |r.jobExperiences| == |req.jobExperiences|
            && (forall i | 0 <= i < |r.jobExperiences| ::
                  r.jobExperiences[i].companyName == req.jobExperiences[i].companyName &&
                  r.jobExperiences[i].experiencePeriod == req.jobExperiences[i].experiencePeriod &&
                  r.jobExperiences[i].responsibilities == req.jobExperiences[i].responsibilities)
  {
  }

  /** The response does not tell an absent text from an empty one: two
      resumes that differ only there get the same response. */
  lemma AbsentAndEmptyLookAlike(resume: Resume)
    requires resume.id.Some?
    ensures From(resume.(selfDescription := None)) == From(resume.(selfDescription := Some("")))
    ensures From(resume.(userProfileImageUrl := None)) == From(resume.(userProfileImageUrl := Some("")))
    ensures From(resume.(portfolioFileUrl := None)) == From(resume.(portfolioFileUrl := Some("")))
  {
  }
}
