/** The resume creation request: the field constraints its annotations
    declare, stated as one validity predicate, and its mapping to the
    resume entity together with the mappings of its four nested parts. */
module ResumeRequest {
  import opened Common
  import opened ResumeDomain

  datatype JobRequest = JobRequest(id: string, name: string) {
    function ToEntity(): (j: Job)
      ensures JobFromEntity(j) == this
    {
      Job(id, name)
    }
  }

  datatype TechStackRequest = TechStackRequest(id: string, name: string) {
    function ToEntity(): (t: TechStack)
      ensures TechStackFromEntity(t) == this
    {
      TechStack(id, name)
    }
  }

  datatype JobExperienceRequest = JobExperienceRequest(companyName: string, experiencePeriod: ExperienceYear,
                                                       responsibilities: string) {
    function ToEntity(): (e: JobExperience)
      ensures JobExperienceFromEntity(e) == this
    {
      JobExperience(companyName, experiencePeriod, responsibilities)
    }
  }

  datatype ProjectExperienceRequest = ProjectExperienceRequest(projectName: string, experiencePeriod: ExperienceYear,
                                                               responsibilities: string) {
    function ToEntity(): (e: ProjectExperience)
      ensures ProjectExperienceFromEntity(e) == this
    {
      ProjectExperience(projectName, experiencePeriod, responsibilities)
    }
  }

  function JobToEntity(d: JobRequest): Job { d.ToEntity() }
  function TechStackToEntity(d: TechStackRequest): TechStack { d.ToEntity() }
  function JobExperienceToEntity(d: JobExperienceRequest): JobExperience { d.ToEntity() }
  function ProjectExperienceToEntity(d: ProjectExperienceRequest): ProjectExperience { d.ToEntity() }

  /** A Hangul syllable, U+AC00 through U+D7A3. */
  predicate IsHangulSyllable(c: char) {
    '\U{AC00}' <= c <= '\U{D7A3}'
  }

  /** One of the 32 ASCII punctuation characters of the POSIX class
      `Punct`. */
  predicate IsAsciiPunct(c: char) {
    '!' <= c <= '/' || ':' <= c <= '@' || '[' <= c <= '`' || '{' <= c <= '~'
  }

  predicate IsTitleChar(c: char) {
    IsHangulSyllable(c) || 'a' <= c <= 'z' || 'A' <= c <= 'Z' || '0' <= c <= '9' || IsAsciiPunct(c)
  }

  /** The title pattern: only Hangul syllables, ASCII letters and digits
      and ASCII punctuation, anchored at both ends. */
  predicate TitleMatchesPattern(title: string) {
    forall i | 0 <= i < |title| :: IsTitleChar(title[i])
  }

  datatype CreateResumeRequest = CreateResumeRequest(
    title: string,
    isActive: bool,
    userId: string,
    userName: string,
    userGender: Gender,
    userBirthDate: int,
    userPhoneNumber: string,
    userEmail: string,
    userProfileImageUrl: Option<string>,
    desiredJobs: seq<JobRequest>,
    techStacks: seq<TechStackRequest>,
    jobExperiences: seq<JobExperienceRequest>,
    projectExperiences: seq<ProjectExperienceRequest>,
    portfolioFileUrl: Option<string>,
    portfolioUrl: seq<string>,
    selfDescription: Option<string>)
  {
    /** The declared field constraints. String sizes are counted in UTF-16
        code units, as Java counts them; an absent self description
        passes its size check. A valid title has 1 to 30 characters and no
        space. */
    predicate Valid(): (ok: bool)
      ensures ok ==> 1 <= |title| <= 30 && forall i | 0 <= i < |title| :: title[i] != ' '
    {
      && NotBlank(title) && 1 <= Utf16Length(title) <= 30 && TitleMatchesPattern(title)
      && NotBlank(userId) && NotBlank(userName)
      && NotBlank(userPhoneNumber) && NotBlank(userEmail)
      && |desiredJobs| <= 5
      && |techStacks| <= 5
      && |portfolioUrl| <= 3
      && (selfDescription.Some? ==> Utf16Length(selfDescription.value) <= 500)
    }

    /** The resume this request describes: no identifier yet, every list
        mapped element by element in order, nullable fields passed through
        as they are. */
    function ToEntity(): (r: Resume)
      ensures r.id.None?
      ensures r.title == title && r.isActive == isActive && r.userId == userId && r.userName == userName
      ensures r.userGender == userGender && r.userBirthDate == userBirthDate
      ensures r.userPhoneNumber == userPhoneNumber && r.userEmail == userEmail
      ensures r.userProfileImageUrl == userProfileImageUrl && r.portfolioFileUrl == portfolioFileUrl
      ensures r.selfDescription == selfDescription && r.portfolioUrl == portfolioUrl
      ensures |r.desiredJobs| == |desiredJobs| &&
              forall i | 0 <= i < |desiredJobs| :: r.desiredJobs[i] == desiredJobs[i].ToEntity()
      ensures |r.techStacks| == |techStacks| &&
              forall i | 0 <= i < |techStacks| :: r.techStacks[i] == techStacks[i].ToEntity()
      ensures |r.jobExperiences| == |jobExperiences| &&
              forall i | 0 <= i < |jobExperiences| :: r.jobExperiences[i] == jobExperiences[i].ToEntity()
      ensures |r.projectExperiences| == |projectExperiences| &&
              forall i | 0 <= i < |projectExperiences| ::
                r.projectExperiences[i] == projectExperiences[i].ToEntity()
    {
      Resume(None, title, isActive, userId, userName, userGender, userBirthDate, userPhoneNumber,
             userEmail, userProfileImageUrl,
             Map(desiredJobs, JobToEntity), Map(techStacks, TechStackToEntity),
             Map(jobExperiences, JobExperienceToEntity), Map(projectExperiences, ProjectExperienceToEntity),
             portfolioFileUrl, portfolioUrl, selfDescription)
    }
  }

  function JobFromEntity(j: Job): JobRequest { JobRequest(j.id, j.name) }
  function TechStackFromEntity(t: TechStack): TechStackRequest { TechStackRequest(t.id, t.name) }
  function JobExperienceFromEntity(e: JobExperience): JobExperienceRequest {
    JobExperienceRequest(e.companyName, e.experiencePeriod, e.responsibilities)
  }
  function ProjectExperienceFromEntity(e: ProjectExperience): ProjectExperienceRequest {
    ProjectExperienceRequest(e.projectName, e.experiencePeriod, e.responsibilities)
  }

  /** The request a stored resume would have been created from: the
      reference inverse of the request mapping. */
  function FromEntity(r: Resume): CreateResumeRequest {
    CreateResumeRequest(r.title, r.isActive, r.userId, r.userName, r.userGender, r.userBirthDate,
                        r.userPhoneNumber, r.userEmail, r.userProfileImageUrl,
                        Map(r.desiredJobs, JobFromEntity), Map(r.techStacks, TechStackFromEntity),
                        Map(r.jobExperiences, JobExperienceFromEntity),
                        Map(r.projectExperiences, ProjectExperienceFromEntity),
                        r.portfolioFileUrl, r.portfolioUrl, r.selfDescription)
  }

  /** The request mapping loses nothing: the request can be read back from
      the resume it builds, and every resume without an identifier is built
      from exactly the request read back from it. */
  lemma ToEntityRoundTrip(req: CreateResumeRequest, r: Resume)
    ensures FromEntity(req.ToEntity()) == req
    ensures r.id.None? ==> FromEntity(r).ToEntity() == r
  {
    MapInverse(req.desiredJobs, JobToEntity, JobFromEntity);
    MapInverse(req.techStacks, TechStackToEntity, TechStackFromEntity);
    MapInverse(req.jobExperiences, JobExperienceToEntity, JobExperienceFromEntity);
    MapInverse(req.projectExperiences, ProjectExperienceToEntity, ProjectExperienceFromEntity);
    MapInverse(r.desiredJobs, JobFromEntity, JobToEntity);
    MapInverse(r.techStacks, TechStackFromEntity, TechStackToEntity);
    MapInverse(r.jobExperiences, JobExperienceFromEntity, JobExperienceToEntity);
    MapInverse(r.projectExperiences, ProjectExperienceFromEntity, ProjectExperienceToEntity);
  }

  /** Every title character is in the Basic Multilingual Plane, so a title
      that matches the pattern has as many UTF-16 code units as characters. */
  lemma PatternTitleLength(title: string)
    requires TitleMatchesPattern(title)
    ensures Utf16Length(title) == |title|
  {
    forall i | 0 <= i < |title| ensures title[i] < 0x1_0000 as char {
      assert IsTitleChar(title[i]);
    }
  }

  /** No title character is blank, so the size and pattern constraints
      alone already make a title non-blank. */
  lemma TitleNotBlankIsImplied(title: string)
    requires 1 <= Utf16Length(title) && TitleMatchesPattern(title)
    ensures NotBlank(title)
  {
    assert IsTitleChar(title[0]);
  }

  /** A title with a space, or with an empty-looking or over-long text, is
      rejected. */
  lemma TitleRejections(req: CreateResumeRequest, i: nat)
    ensures i < |req.title| && req.title[i] == ' ' ==> !req.Valid()
    ensures |req.title| == 0 || |req.title| > 30 ==> !req.Valid()
  {
    if TitleMatchesPattern(req.title) {
      PatternTitleLength(req.title);
    }
  }

  /** A resume built from a valid request has a title of 1 to 30 characters
      that are Hangul syllables, ASCII letters, digits or punctuation, at
      most 5 desired jobs, at most 5 tech stacks, at most 3 portfolio links
      and a self description of at most 500 characters when present. */
  lemma ValidRequestBounds(req: CreateResumeRequest)
    requires req.Valid()
    ensures var r := req.ToEntity();
            && 1 <= |r.title| <= 30 && NotBlank(r.title)
            && (forall i | 0 <= i < |r.title| :: IsTitleChar(r.title[i]))
            && |r.desiredJobs| <= 5 && |r.techStacks| <= 5 && |r.portfolioUrl| <= 3
            && (r.selfDescription.Some? ==> |r.selfDescription.value| <= 500)
  {
    PatternTitleLength(req.title);
  }
}
