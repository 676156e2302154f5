/** The resume entity and its parts, as the request mapper builds them and
    the response mapper reads them. Enumerations whose constants are not
    part of this model (gender, experience period) are carried by name;
    a birth date is a day number. */
module ResumeDomain {
  import opened Common

  datatype Gender = Gender(name: string)

  datatype ExperienceYear = ExperienceYear(name: string)

  datatype Job = Job(id: string, name: string)

  datatype TechStack = TechStack(id: string, name: string)

  datatype JobExperience = JobExperience(companyName: string, experiencePeriod: ExperienceYear,
                                         responsibilities: string)

  datatype ProjectExperience = ProjectExperience(projectName: string, experiencePeriod: ExperienceYear,
                                                 responsibilities: string)

  /** A resume; `id` is absent until the store assigns one. */
  datatype Resume = Resume(
    id: Option<string>,
    title: string,
    isActive: bool,
    userId: string,
    userName: string,
    userGender: Gender,
    userBirthDate: int,
    userPhoneNumber: string,
    userEmail: string,
    userProfileImageUrl: Option<string>,
    desiredJobs: seq<Job>,
    techStacks: seq<TechStack>,
    jobExperiences: seq<JobExperience>,
    projectExperiences: seq<ProjectExperience>,
    portfolioFileUrl: Option<string>,
    portfolioUrl: seq<string>,
    selfDescription: Option<string>)
}
